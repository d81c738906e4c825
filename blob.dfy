/** The blob score (`BlobGoal.score` and `BlobGoal._undiscovered_blob_size`
    of goal.py): the size of the largest 4-connected region of target-coloured
    unit cells, found by flood fill over a tri-state visited grid that is
    updated in place. */
module Blob {
  import opened Blocks
  import opened Raster

  /** A unit cell as (column, row). */
  type Cell = (int, int)

  /** The number of rows, read off the first column as the code does. */
  function Height(g: Grid): nat
  {
    if |g| == 0 then 0 else |g[0]|
  }

  ghost predicate Rectangular(g: Grid)
  {
    forall c :: 0 <= c < |g| ==> |g[c]| == Height(g)
  }

  predicate InBounds(g: Grid, c: int, r: int)
  {
    0 <= c < |g| && 0 <= r < Height(g)
  }

  /** Cells whose sides touch; touching corners does not count. */
  predicate Adjacent(a: Cell, b: Cell)
  {
    (a.0 == b.0 && (a.1 - b.1 == 1 || b.1 - a.1 == 1)) ||
    (a.1 == b.1 && (a.0 - b.0 == 1 || b.0 - a.0 == 1))
  }

  ghost predicate OnColour(g: Grid, target: Colour, q: Cell)
  {
    0 <= q.0 < |g| && 0 <= q.1 < |g[q.0]| && g[q.0][q.1] == target
  }

  /** p walks from cell to side-adjacent cell through target-coloured cells. */
  ghost predicate IsPath(g: Grid, target: Colour, p: seq<Cell>)
  {
    && |p| >= 1
    && (forall k :: 0 <= k < |p| ==> OnColour(g, target, p[k]))
    && (forall k :: 0 <= k < |p| - 1 ==> Adjacent(p[k], p[k + 1]))
  }

  ghost predicate Connected(g: Grid, target: Colour, a: Cell, b: Cell)
  {
    exists p :: IsPath(g, target, p) && p[0] == a && p[|p| - 1] == b
  }

  /** The blob of a: the target-coloured cells connected to a (empty when a
      does not have the target colour). */
  ghost function BlobOf(g: Grid, target: Colour, a: Cell): set<Cell>
  {
    set c, r | 0 <= c < |g| && 0 <= r < |g[c]| && Connected(g, target, a, (c, r)) :: (c, r)
  }

  /** size is the largest blob of g: no target-coloured cell lies in a larger
      blob, some cell's blob has exactly that size when it is positive, and it
      is 0 exactly when no cell has the target colour. */
  ghost predicate IsLargestBlob(g: Grid, target: Colour, size: int)
  {
    && (forall c, r :: OnColour(g, target, (c, r)) ==> |BlobOf(g, target, (c, r))| <= size)
    && (size > 0 ==> exists c, r :: OnColour(g, target, (c, r)) && |BlobOf(g, target, (c, r))| == size)
    && (size == 0 <==> forall c, r :: !OnColour(g, target, (c, r)))
  }

  /** The blob size of every cell of g, column by column. */
  ghost function BlobSizes(g: Grid, target: Colour): (s: seq<seq<nat>>)
    ensures |s| == |g|
    ensures forall c :: 0 <= c < |g| ==> |s[c]| == |g[c]|
  {
    seq(|g|, c requires 0 <= c < |g| => seq(|g[c]|, r => |BlobOf(g, target, (c, r))|))
  }

  lemma BlobSizeAt(g: Grid, target: Colour, c: int, r: int)
    requires 0 <= c < |g| && 0 <= r < |g[c]|
    ensures BlobSizes(g, target)[c][r] == |BlobOf(g, target, (c, r))|
  {
  }

  /** The largest of the first n entries of col (0 when n is 0). */
  ghost function ColumnMax(col: seq<nat>, n: nat): nat
    requires n <= |col|
  {
    if n == 0 then 0
    else
      var rest := ColumnMax(col, n - 1);
      if col[n - 1] > rest then col[n - 1] else rest
  }

  /** The largest entry of columns 0 .. w-1 of s (0 when there is none). */
  ghost function GridMax(s: seq<seq<nat>>, w: nat): nat
    requires w <= |s|
  {
    if w == 0 then 0
    else
      var rest := GridMax(s, w - 1);
      var here := ColumnMax(s[w - 1], |s[w - 1]|);
      if here > rest then here else rest
  }

  /** The size of the largest blob of g: the largest blob size over all cells. */
  ghost function LargestBlob(g: Grid, target: Colour): nat
  {
    GridMax(BlobSizes(g, target), |g|)
  }

  // ---------------------------------------------------------------------
  // Connectivity

  lemma ConnectedSelf(g: Grid, target: Colour, a: Cell)
    requires OnColour(g, target, a)
    ensures Connected(g, target, a, a)
  {
    assert IsPath(g, target, [a]);
  }

  lemma ConnectedEnds(g: Grid, target: Colour, a: Cell, b: Cell)
    requires Connected(g, target, a, b)
    ensures OnColour(g, target, a) && OnColour(g, target, b)
  {
    var p :| IsPath(g, target, p) && p[0] == a && p[|p| - 1] == b;
    assert OnColour(g, target, p[|p| - 1]);
  }

  lemma ConnectedStep(g: Grid, target: Colour, a: Cell, b: Cell, q: Cell)
    requires OnColour(g, target, a) && Adjacent(a, b) && Connected(g, target, b, q)
    ensures Connected(g, target, a, q)
  {
    var p :| IsPath(g, target, p) && p[0] == b && p[|p| - 1] == q;
    var p' := [a] + p;
    forall k | 0 <= k < |p'| ensures OnColour(g, target, p'[k]) {
      if k > 0 {
        assert p'[k] == p[k - 1];
      }
    }
    forall k | 0 <= k < |p'| - 1 ensures Adjacent(p'[k], p'[k + 1]) {
      if k > 0 {
        assert p'[k] == p[k - 1] && p'[k + 1] == p[k];
      }
    }
    assert IsPath(g, target, p');
  }

  function Reverse(p: seq<Cell>): (r: seq<Cell>)
    ensures |r| == |p|
    ensures forall k :: 0 <= k < |p| ==> r[k] == p[|p| - 1 - k]
  {
    if p == [] then [] else Reverse(p[1..]) + [p[0]]
  }

  lemma ConnectedSymmetric(g: Grid, target: Colour, a: Cell, b: Cell)
    requires Connected(g, target, a, b)
    ensures Connected(g, target, b, a)
  {
    var p :| IsPath(g, target, p) && p[0] == a && p[|p| - 1] == b;
    var r := Reverse(p);
    forall k | 0 <= k < |r| - 1 ensures Adjacent(r[k], r[k + 1]) {
      assert r[k] == p[|p| - 1 - k] && r[k + 1] == p[|p| - 1 - k - 1];
      assert Adjacent(p[|p| - 1 - k - 1], p[|p| - 1 - k]);
    }
    assert IsPath(g, target, r);
  }

  lemma ConnectedTransitive(g: Grid, target: Colour, a: Cell, b: Cell, c: Cell)
    requires Connected(g, target, a, b) && Connected(g, target, b, c)
    ensures Connected(g, target, a, c)
  {
    var p :| IsPath(g, target, p) && p[0] == a && p[|p| - 1] == b;
    var q :| IsPath(g, target, q) && q[0] == b && q[|q| - 1] == c;
    var pq := p + q[1..];
    forall k | 0 <= k < |pq| ensures OnColour(g, target, pq[k]) {
      if k >= |p| {
        assert pq[k] == q[k - |p| + 1];
      }
    }
    forall k | 0 <= k < |pq| - 1 ensures Adjacent(pq[k], pq[k + 1]) {
      if k >= |p| {
        assert pq[k] == q[k - |p| + 1] && pq[k + 1] == q[k - |p| + 2];
      } else if k == |p| - 1 {
        assert pq[k] == q[0] && pq[k + 1] == q[1];
      }
    }
    assert IsPath(g, target, pq);
  }

  lemma InBlob(g: Grid, target: Colour, a: Cell, q: Cell)
    ensures q in BlobOf(g, target, a) <==> Connected(g, target, a, q)
  {
    if Connected(g, target, a, q) {
      ConnectedEnds(g, target, a, q);
    }
  }

  /** Cells of one blob share it. */
  lemma SameBlob(g: Grid, target: Colour, a: Cell, q: Cell)
    requires q in BlobOf(g, target, a)
    ensures BlobOf(g, target, q) == BlobOf(g, target, a)
  {
    InBlob(g, target, a, q);
    ConnectedSymmetric(g, target, a, q);
    forall x | x in BlobOf(g, target, q) ensures x in BlobOf(g, target, a) {
      InBlob(g, target, q, x);
      ConnectedTransitive(g, target, a, q, x);
      InBlob(g, target, a, x);
    }
    forall x | x in BlobOf(g, target, a) ensures x in BlobOf(g, target, q) {
      InBlob(g, target, a, x);
      ConnectedTransitive(g, target, q, a, x);
      InBlob(g, target, q, x);
    }
  }

  // ---------------------------------------------------------------------
  // The visited grid, as a value: -1 never visited, 0 visited and not of the
  // target colour, 1 visited and of the target colour.

  type Marks = seq<seq<int>>

  ghost predicate Fits(m: Marks, g: Grid)
  {
    Rectangular(g) && |m| == |g| && forall c :: 0 <= c < |m| ==> |m[c]| == |g[c]|
  }

  ghost predicate Consistent(m: Marks, g: Grid, target: Colour)
  {
    && Fits(m, g)
    && forall c, r :: 0 <= c < |m| && 0 <= r < |m[c]| ==>
         && -1 <= m[c][r] <= 1
         && (m[c][r] == 1 ==> g[c][r] == target)
         && (m[c][r] == 0 ==> g[c][r] != target)
  }

  /** m1 differs from m0 only where m0 held -1. */
  ghost predicate Grows(m0: Marks, m1: Marks)
  {
    && |m1| == |m0|
    && (forall c :: 0 <= c < |m0| ==> |m1[c]| == |m0[c]|)
    && (forall c, r :: 0 <= c < |m0| && 0 <= r < |m0[c]| && m0[c][r] != -1 ==> m1[c][r] == m0[c][r])
  }

  /** The cells marked 1. */
  ghost function Marked(m: Marks): set<Cell>
  {
    set c, r | 0 <= c < |m| && 0 <= r < |m[c]| && m[c][r] == 1 :: (c, r)
  }

  /** The cells still marked -1. */
  ghost function Unvisited(m: Marks): set<Cell>
  {
    set c, r | 0 <= c < |m| && 0 <= r < |m[c]| && m[c][r] == -1 :: (c, r)
  }

  /** Cell (c, r) has been visited, or lies outside the grid. */
  ghost predicate Settled(m: Marks, c: int, r: int)
  {
    0 <= c < |m| && 0 <= r < |m[c]| ==> m[c][r] != -1
  }

  ghost predicate AroundSettled(m: Marks, q: Cell)
  {
    Settled(m, q.0 + 1, q.1) && Settled(m, q.0 - 1, q.1) && Settled(m, q.0, q.1 + 1) && Settled(m, q.0, q.1 - 1)
  }

  /** Every cell marked 1 has all its neighbours visited. */
  ghost predicate Closed(m: Marks)
  {
    forall q :: q in Marked(m) ==> AroundSettled(m, q)
  }

  /** What a search from a leaves behind, going from m0 to m1: only -1 cells
      changed, the marks stay consistent, and every newly marked cell is
      connected to a and has all its neighbours visited. */
  ghost predicate Explored(m0: Marks, m1: Marks, g: Grid, target: Colour, a: Cell)
  {
    && Grows(m0, m1)
    && Consistent(m1, g, target)
    && forall q :: q in Marked(m1) - Marked(m0) ==> AroundSettled(m1, q) && Connected(g, target, a, q)
  }

  /** p starts anywhere and then steps from cell to side-adjacent cell
      through cells of S. */
  ghost predicate StepsWithin(S: set<Cell>, p: seq<Cell>)
  {
    |p| >= 1 && forall k :: 1 <= k < |p| ==> p[k] in S && Adjacent(p[k - 1], p[k])
  }

  ghost predicate ReachesWithin(S: set<Cell>, a: Cell, q: Cell)
  {
    exists p :: StepsWithin(S, p) && p[0] == a && p[|p| - 1] == q
  }

  /** Every cell marked 1 between m0 and m1 is reached from a through cells
      marked 1 between m0 and m1. */
  ghost predicate Tethered(m0: Marks, m1: Marks, a: Cell)
  {
    forall q :: q in Marked(m1) - Marked(m0) ==> ReachesWithin(Marked(m1) - Marked(m0), a, q)
  }

  /** Tethered, and a search from a that marks anything marks a itself. */
  ghost predicate Confined(m0: Marks, m1: Marks, a: Cell)
  {
    Tethered(m0, m1, a) && (Marked(m1) - Marked(m0) != {} ==> a in Marked(m1) - Marked(m0))
  }

  /** Every entry that changed between m0 and m1 is in A, in S, or beside a
      cell of S. */
  ghost predicate ChangedNear(m0: Marks, m1: Marks, S: set<Cell>, A: set<Cell>)
  {
    forall c, r :: 0 <= c < |m0| && 0 <= r < |m0[c]| && 0 <= c < |m1| && 0 <= r < |m1[c]| && m1[c][r] != m0[c][r] ==>
      (c, r) in A || (c, r) in S || exists p :: p in S && Adjacent(p, (c, r))
  }

  /** Cell q has the target colour and has never been visited in m. */
  ghost predicate Fresh(m: Marks, g: Grid, target: Colour, q: Cell)
  {
    OnColour(g, target, q) && 0 <= q.0 < |m| && 0 <= q.1 < |m[q.0]| && m[q.0][q.1] == -1
  }

  ghost predicate FreshPath(m: Marks, g: Grid, target: Colour, p: seq<Cell>)
  {
    && |p| >= 1
    && (forall k :: 0 <= k < |p| ==> Fresh(m, g, target, p[k]))
    && (forall k :: 1 <= k < |p| ==> Adjacent(p[k - 1], p[k]))
  }

  ghost predicate FreshlyConnected(m: Marks, g: Grid, target: Colour, a: Cell, b: Cell)
  {
    exists p :: FreshPath(m, g, target, p) && p[0] == a && p[|p| - 1] == b
  }

  /** The blob that `_undiscovered_blob_size` documents: the target-coloured
      cells reached from a through cells never visited in m. It is empty when
      a is visited, of another colour, or outside the grid. */
  ghost function FreshBlob(m: Marks, g: Grid, target: Colour, a: Cell): set<Cell>
  {
    set c, r | 0 <= c < |g| && 0 <= r < |g[c]| && FreshlyConnected(m, g, target, a, (c, r)) :: (c, r)
  }

  lemma GrowsFacts(m0: Marks, m1: Marks)
    requires Grows(m0, m1)
    ensures Marked(m0) <= Marked(m1)
    ensures Unvisited(m1) <= Unvisited(m0)
    ensures forall c, r :: Settled(m0, c, r) ==> Settled(m1, c, r)
  {
    forall c, r | Settled(m0, c, r) ensures Settled(m1, c, r) {
      if 0 <= c < |m1| && 0 <= r < |m1[c]| {
        assert m1[c][r] == m0[c][r];
      }
    }
  }

  lemma GrowsTransitive(m0: Marks, m1: Marks, m2: Marks)
    requires Grows(m0, m1) && Grows(m1, m2)
    ensures Grows(m0, m2)
  {
  }

  lemma ExploredNothing(m: Marks, g: Grid, target: Colour, a: Cell)
    requires Consistent(m, g, target)
    ensures Explored(m, m, g, target, a)
  {
  }

  lemma ExploredTransitive(m0: Marks, m1: Marks, m2: Marks, g: Grid, target: Colour, a: Cell)
    requires Explored(m0, m1, g, target, a) && Explored(m1, m2, g, target, a)
    ensures Explored(m0, m2, g, target, a)
  {
    GrowsFacts(m1, m2);
    forall q | q in Marked(m2) - Marked(m0) ensures AroundSettled(m2, q) && Connected(g, target, a, q) {
      if q in Marked(m1) {
        assert AroundSettled(m1, q);
      }
    }
  }

  lemma ExploredFromNeighbour(m0: Marks, m1: Marks, g: Grid, target: Colour, n: Cell, a: Cell)
    requires Explored(m0, m1, g, target, n)
    requires OnColour(g, target, a) && Adjacent(a, n)
    ensures Explored(m0, m1, g, target, a)
  {
    forall q | q in Marked(m1) - Marked(m0) ensures Connected(g, target, a, q) {
      ConnectedStep(g, target, a, n, q);
    }
  }

  /** Marking an unvisited cell of the target colour with 1. */
  lemma MarkOne(m0: Marks, m1: Marks, g: Grid, target: Colour, c: int, r: int)
    requires Consistent(m0, g, target)
    requires 0 <= c < |m0| && 0 <= r < |m0[c]| && m0[c][r] == -1 && g[c][r] == target
    requires m1 == m0[c := m0[c][r := 1]]
    ensures Consistent(m1, g, target) && Grows(m0, m1)
    ensures Marked(m1) == Marked(m0) + {(c, r)} && (c, r) !in Marked(m0)
    ensures Unvisited(m1) < Unvisited(m0)
  {
    assert (c, r) in Unvisited(m0) - Unvisited(m1);
  }

  /** Marking an unvisited cell of another colour with 0. */
  lemma MarkZero(m0: Marks, m1: Marks, g: Grid, target: Colour, c: int, r: int)
    requires Consistent(m0, g, target)
    requires 0 <= c < |m0| && 0 <= r < |m0[c]| && m0[c][r] == -1 && g[c][r] != target
    requires m1 == m0[c := m0[c][r := 0]]
    ensures Explored(m0, m1, g, target, (c, r)) && Settled(m1, c, r)
    ensures Marked(m1) == Marked(m0)
    ensures ChangedNear(m0, m1, {}, {(c, r)})
  {
  }

  /** A search from neighbour n of a, after the searches so far from a's
      mark on (state m1 to mk), extends what a has explored. */
  lemma SearchedNeighbour(m1: Marks, mk: Marks, mk1: Marks, g: Grid, target: Colour, n: Cell, a: Cell)
    requires Explored(m1, mk, g, target, a) && Explored(mk, mk1, g, target, n)
    requires OnColour(g, target, a) && Adjacent(a, n)
    ensures Explored(m1, mk1, g, target, a)
    ensures Unvisited(mk1) <= Unvisited(m1)
  {
    ExploredFromNeighbour(mk, mk1, g, target, n, a);
    ExploredTransitive(m1, mk, mk1, g, target, a);
    GrowsFacts(m1, mk1);
  }

  /** The k-th neighbour searched from (col, row), in the order of the code:
      (row, col+1), (row, col-1), (row+1, col), (row-1, col). */
  function Neighbour(col: int, row: int, k: int): Cell
  {
    if k == 0 then (col + 1, row)
    else if k == 1 then (col - 1, row)
    else if k == 2 then (col, row + 1)
    else (col, row - 1)
  }

  /** The first k neighbours of (col, row) have been visited. */
  ghost predicate SettledAmong(m: Marks, col: int, row: int, k: int)
  {
    forall i :: 0 <= i < k ==> Settled(m, Neighbour(col, row, i).0, Neighbour(col, row, i).1)
  }

  /** The search from (col, row) in progress: it has explored from its mark in
      m1, through cells it marked, has changed only cells it marked and their
      neighbours, and has visited its first k neighbours of (col, row). */
  ghost predicate Progress(m1: Marks, m: Marks, g: Grid, target: Colour, col: int, row: int, k: int)
  {
    && Explored(m1, m, g, target, (col, row))
    && Tethered(m1, m, (col, row))
    && ChangedNear(m1, m, Marked(m) - Marked(m1) + {(col, row)}, {})
    && SettledAmong(m, col, row, k)
  }

  /** The search from cell a has marked it, in state m1, from state m0. */
  ghost predicate Started(m0: Marks, m1: Marks, g: Grid, target: Colour, a: Cell)
  {
    && Consistent(m0, g, target) && OnColour(g, target, a)
    && Grows(m0, m1) && Marked(m1) == Marked(m0) + {a} && a !in Marked(m0) && Settled(m1, a.0, a.1)
  }

  /** Marking an unvisited target-coloured cell starts a search from it. */
  lemma MarkStart(m0: Marks, m1: Marks, g: Grid, target: Colour, c: int, r: int)
    requires Consistent(m0, g, target)
    requires 0 <= c < |m0| && 0 <= r < |m0[c]| && m0[c][r] == -1 && InBounds(g, c, r) && g[c][r] == target
    requires m1 == m0[c := m0[c][r := 1]]
    ensures Started(m0, m1, g, target, (c, r)) && Progress(m1, m1, g, target, c, r, 0)
    ensures Unvisited(m1) < Unvisited(m0) && |Marked(m1)| == |Marked(m0)| + 1
  {
    MarkOne(m0, m1, g, target, c, r);
    ExploredNothing(m1, g, target, (c, r));
  }

  /** The four searches from the neighbours, together with the mark on the
      cell itself, explore from that cell. */
  lemma ExploredAfterMark(m0: Marks, m1: Marks, m5: Marks, g: Grid, target: Colour, a: Cell)
    requires Started(m0, m1, g, target, a)
    requires Explored(m1, m5, g, target, a) && SettledAmong(m5, a.0, a.1, 4)
    ensures Explored(m0, m5, g, target, a) && Settled(m5, a.0, a.1)
  {
    assert AroundSettled(m5, a) by {
      assert Neighbour(a.0, a.1, 0) == (a.0 + 1, a.1);
      assert Neighbour(a.0, a.1, 1) == (a.0 - 1, a.1);
      assert Neighbour(a.0, a.1, 2) == (a.0, a.1 + 1);
      assert Neighbour(a.0, a.1, 3) == (a.0, a.1 - 1);
    }
    GrowsTransitive(m0, m1, m5);
    GrowsFacts(m1, m5);
    ConnectedSelf(g, target, a);
    forall q | q in Marked(m5) - Marked(m0) ensures AroundSettled(m5, q) && Connected(g, target, a, q) {
      if q != a {
        assert q in Marked(m5) - Marked(m1);
      }
    }
  }

  lemma StepsWithinMono(S: set<Cell>, T: set<Cell>, p: seq<Cell>)
    requires S <= T && StepsWithin(S, p)
    ensures StepsWithin(T, p)
  {
  }

  /** A search from neighbour n of a that stays within what it marks keeps the
      search from a within what that search marks. */
  lemma TetherStep(m1: Marks, mk: Marks, mk1: Marks, n: Cell, a: Cell)
    requires Grows(m1, mk) && Grows(mk, mk1)
    requires Tethered(m1, mk, a) && Confined(mk, mk1, n) && Adjacent(a, n)
    ensures Tethered(m1, mk1, a)
  {
    GrowsFacts(m1, mk);
    GrowsFacts(mk, mk1);
    var S, S1, S2 := Marked(mk1) - Marked(m1), Marked(mk) - Marked(m1), Marked(mk1) - Marked(mk);
    assert S == S1 + S2;
    forall q | q in S ensures ReachesWithin(S, a, q) {
      if q in S1 {
        var p :| StepsWithin(S1, p) && p[0] == a && p[|p| - 1] == q;
        StepsWithinMono(S1, S, p);
      } else {
        var p :| StepsWithin(S2, p) && p[0] == n && p[|p| - 1] == q;
        assert n in S2;
        var p' := [a] + p;
        forall k | 1 <= k < |p'| ensures p'[k] in S && Adjacent(p'[k - 1], p'[k]) {
          if k > 1 {
            assert p'[k] == p[k - 1] && p'[k - 1] == p[k - 2];
          }
        }
        assert StepsWithin(S, p') && p'[|p'| - 1] == q;
      }
    }
  }

  /** The mark on a, followed by searches that stay within what they mark,
      keeps the whole search from a within what it marks. */
  lemma ConfinedAfterMark(m0: Marks, m1: Marks, m5: Marks, a: Cell)
    requires Grows(m0, m1) && Grows(m1, m5) && Marked(m1) == Marked(m0) + {a} && a !in Marked(m0)
    requires Tethered(m1, m5, a)
    ensures Confined(m0, m5, a)
  {
    GrowsFacts(m1, m5);
    var S, S1 := Marked(m5) - Marked(m0), Marked(m5) - Marked(m1);
    assert a in S && S1 <= S;
    forall q | q in S ensures ReachesWithin(S, a, q) {
      if q == a {
        assert StepsWithin(S, [a]);
      } else {
        assert q in S1;
        var p :| StepsWithin(S1, p) && p[0] == a && p[|p| - 1] == q;
        StepsWithinMono(S1, S, p);
      }
    }
  }

  /** A neighbour search that changes only n, the cells it marks and their
      neighbours keeps the search from a, beside n, changing only a, the cells
      marked since a's mark and their neighbours. */
  lemma ChangedStep(m1: Marks, mk: Marks, mk1: Marks, n: Cell, a: Cell)
    requires Grows(m1, mk) && Grows(mk, mk1) && Adjacent(a, n)
    requires ChangedNear(m1, mk, Marked(mk) - Marked(m1) + {a}, {})
    requires ChangedNear(mk, mk1, Marked(mk1) - Marked(mk), {n})
    ensures ChangedNear(m1, mk1, Marked(mk1) - Marked(m1) + {a}, {})
  {
    GrowsFacts(m1, mk);
    GrowsFacts(mk, mk1);
    var S, S1, S2 := Marked(mk1) - Marked(m1) + {a}, Marked(mk) - Marked(m1) + {a}, Marked(mk1) - Marked(mk);
    assert S1 <= S && S2 <= S;
    forall c, r | 0 <= c < |m1| && 0 <= r < |m1[c]| && 0 <= c < |mk1| && 0 <= r < |mk1[c]| && mk1[c][r] != m1[c][r]
      ensures (c, r) in S || exists p :: p in S && Adjacent(p, (c, r))
    {
      if mk[c][r] != m1[c][r] {
        if (c, r) !in S1 {
          var p :| p in S1 && Adjacent(p, (c, r));
          assert p in S;
        }
      } else if (c, r) == n {
        assert a in S && Adjacent(a, (c, r));
      } else if (c, r) !in S2 {
        var p :| p in S2 && Adjacent(p, (c, r));
        assert p in S;
      }
    }
  }

  /** The mark on a followed by its neighbour searches changes only a, the
      cells newly marked and their neighbours. */
  lemma ChangedAfterMark(m0: Marks, m1: Marks, m5: Marks, a: Cell)
    requires 0 <= a.0 < |m0| && 0 <= a.1 < |m0[a.0]| && m1 == m0[a.0 := m0[a.0][a.1 := 1]]
    requires Grows(m0, m1) && Grows(m1, m5) && Marked(m1) == Marked(m0) + {a} && a !in Marked(m0)
    requires ChangedNear(m1, m5, Marked(m5) - Marked(m1) + {a}, {})
    ensures ChangedNear(m0, m5, Marked(m5) - Marked(m0), {a})
  {
    GrowsFacts(m1, m5);
    var S, S1 := Marked(m5) - Marked(m0), Marked(m5) - Marked(m1) + {a};
    assert a in S && S1 <= S;
    forall c, r | 0 <= c < |m0| && 0 <= r < |m0[c]| && 0 <= c < |m5| && 0 <= r < |m5[c]| && m5[c][r] != m0[c][r] && (c, r) != a
      ensures (c, r) in S || exists p :: p in S && Adjacent(p, (c, r))
    {
      assert m1[c][r] == m0[c][r];
      if (c, r) !in S1 {
        var p :| p in S1 && Adjacent(p, (c, r));
        assert p in S;
      }
    }
  }

  /** A cell marked 1 by the search had the target colour and was never visited. */
  lemma NewlyMarkedFresh(m0: Marks, m1: Marks, g: Grid, target: Colour, q: Cell)
    requires Grows(m0, m1) && Consistent(m1, g, target) && q in Marked(m1) - Marked(m0)
    ensures Fresh(m0, g, target, q)
  {
    assert m1[q.0][q.1] == 1;
    assert m0[q.0][q.1] == -1;
  }

  /** A never-visited target cell that the search leaves visited is marked 1 by it. */
  lemma FreshCellMarked(m0: Marks, m1: Marks, g: Grid, target: Colour, q: Cell)
    requires Fresh(m0, g, target, q) && Grows(m0, m1) && Consistent(m1, g, target) && Settled(m1, q.0, q.1)
    ensures q in Marked(m1) - Marked(m0)
  {
    assert m1[q.0][q.1] == 1;
  }

  lemma SettledNeighbour(m: Marks, q: Cell, n: Cell)
    requires AroundSettled(m, q) && Adjacent(q, n)
    ensures Settled(m, n.0, n.1)
  {
  }

  /** Every cell newly marked 1 has all its neighbours visited. */
  ghost predicate NewlyClosed(m0: Marks, m1: Marks)
  {
    forall q :: q in Marked(m1) - Marked(m0) ==> AroundSettled(m1, q)
  }

  lemma {:induction false} FreshPathMarked(m0: Marks, m1: Marks, g: Grid, target: Colour, p: seq<Cell>, k: nat)
    requires Grows(m0, m1) && Consistent(m1, g, target) && NewlyClosed(m0, m1)
    requires FreshPath(m0, g, target, p) && Settled(m1, p[0].0, p[0].1) && k < |p|
    ensures p[k] in Marked(m1) - Marked(m0)
  {
    assert Fresh(m0, g, target, p[k]);
    if k == 0 {
      FreshCellMarked(m0, m1, g, target, p[0]);
    } else {
      FreshPathMarked(m0, m1, g, target, p, k - 1);
      assert AroundSettled(m1, p[k - 1]) && Adjacent(p[k - 1], p[k]);
      SettledNeighbour(m1, p[k - 1], p[k]);
      FreshCellMarked(m0, m1, g, target, p[k]);
    }
  }

  /** Every cell the search newly marks is in the fresh blob of a. */
  lemma NewInFreshBlob(m0: Marks, m1: Marks, g: Grid, target: Colour, a: Cell)
    requires Grows(m0, m1) && Consistent(m1, g, target) && Confined(m0, m1, a)
    ensures Marked(m1) - Marked(m0) <= FreshBlob(m0, g, target, a)
  {
    var S := Marked(m1) - Marked(m0);
    forall q | q in S ensures q in FreshBlob(m0, g, target, a) {
      assert ReachesWithin(S, a, q);
      var p :| StepsWithin(S, p) && p[0] == a && p[|p| - 1] == q;
      forall k | 0 <= k < |p| ensures Fresh(m0, g, target, p[k]) {
        assert p[k] in S;
        NewlyMarkedFresh(m0, m1, g, target, p[k]);
      }
      assert FreshPath(m0, g, target, p);
      assert FreshlyConnected(m0, g, target, a, q);
      NewlyMarkedFresh(m0, m1, g, target, q);
    }
  }

  /** Every cell of the fresh blob of a is newly marked by a search that
      leaves a visited. */
  lemma FreshBlobIsNew(m0: Marks, m1: Marks, g: Grid, target: Colour, a: Cell)
    requires Grows(m0, m1) && Consistent(m1, g, target) && NewlyClosed(m0, m1) && Settled(m1, a.0, a.1)
    ensures FreshBlob(m0, g, target, a) <= Marked(m1) - Marked(m0)
  {
    forall q | q in FreshBlob(m0, g, target, a) ensures q in Marked(m1) - Marked(m0) {
      assert FreshlyConnected(m0, g, target, a, q);
      var p :| FreshPath(m0, g, target, p) && p[0] == a && p[|p| - 1] == q;
      FreshPathMarked(m0, m1, g, target, p, |p| - 1);
    }
  }

  /** A search that explores from a, within what it marks, marks exactly the
      fresh blob of a, and the count is its size. */
  lemma SearchIsFresh(m0: Marks, m1: Marks, g: Grid, target: Colour, a: Cell)
    requires Explored(m0, m1, g, target, a) && Confined(m0, m1, a) && Settled(m1, a.0, a.1)
    ensures Marked(m1) - Marked(m0) == FreshBlob(m0, g, target, a)
    ensures |Marked(m1)| - |Marked(m0)| == |FreshBlob(m0, g, target, a)|
  {
    GrowsFacts(m0, m1);
    CardDifference(Marked(m1), Marked(m0));
    NewInFreshBlob(m0, m1, g, target, a);
    FreshBlobIsNew(m0, m1, g, target, a);
  }

  lemma {:induction false} WalledPath(t: Colour, p: seq<Cell>, k: nat)
    requires FreshPath([[-1], [1], [-1]], [[t], [t], [t]], t, p) && p[0] == (0, 0) && k < |p|
    ensures p[k] == (0, 0)
  {
    if k > 0 {
      WalledPath(t, p, k - 1);
    }
  }

  /** Three target cells in a row whose middle one is already visited: the
      search from the first reaches only that cell, because the blob may
      involve only cells never visited. */
  lemma WalledBlob(t: Colour)
    ensures FreshBlob([[-1], [1], [-1]], [[t], [t], [t]], t, (0, 0)) == {(0, 0)}
  {
    var m: Marks, g: Grid := [[-1], [1], [-1]], [[t], [t], [t]];
    assert FreshPath(m, g, t, [(0, 0)]);
    forall q | q in FreshBlob(m, g, t, (0, 0)) ensures q == (0, 0) {
      var p :| FreshPath(m, g, t, p) && p[0] == (0, 0) && p[|p| - 1] == q;
      WalledPath(t, p, |p| - 1);
    }
  }

  /** The search from neighbour n, the k-th of a, moves the search from a
      on to its next neighbour. */
  lemma NeighbourStep(m1: Marks, mk: Marks, mk1: Marks, g: Grid, target: Colour, a: Cell, n: Cell, k: int)
    requires OnColour(g, target, a) && 0 <= k < 4 && Neighbour(a.0, a.1, k) == n
    requires Progress(m1, mk, g, target, a.0, a.1, k)
    requires Explored(mk, mk1, g, target, n) && Settled(mk1, n.0, n.1) && Confined(mk, mk1, n)
    requires ChangedNear(mk, mk1, Marked(mk1) - Marked(mk), {n})
    ensures Progress(m1, mk1, g, target, a.0, a.1, k + 1)
  {
    GrowsFacts(m1, mk);
    SearchedNeighbour(m1, mk, mk1, g, target, n, a);
    TetherStep(m1, mk, mk1, n, a);
    ChangedStep(m1, mk, mk1, n, a);
    GrowsFacts(mk, mk1);
  }

  /** The mark on a and the searches from its four neighbours make the whole
      search from a: it marks exactly the fresh blob of a, through cells it
      marks, changing only a, those cells and their neighbours. */
  lemma FinishMark(m0: Marks, m1: Marks, m5: Marks, g: Grid, target: Colour, a: Cell)
    requires 0 <= a.0 < |m0| && 0 <= a.1 < |m0[a.0]| && m1 == m0[a.0 := m0[a.0][a.1 := 1]]
    requires Started(m0, m1, g, target, a) && Progress(m1, m5, g, target, a.0, a.1, 4)
    ensures Explored(m0, m5, g, target, a) && Settled(m5, a.0, a.1) && Confined(m0, m5, a)
    ensures ChangedNear(m0, m5, Marked(m5) - Marked(m0), {a})
    ensures Marked(m5) - Marked(m0) == FreshBlob(m0, g, target, a)
    ensures |Marked(m5)| - |Marked(m0)| == |FreshBlob(m0, g, target, a)|
  {
    ExploredAfterMark(m0, m1, m5, g, target, a);
    ConfinedAfterMark(m0, m1, m5, a);
    ChangedAfterMark(m0, m1, m5, a);
    SearchIsFresh(m0, m5, g, target, a);
  }

  lemma {:induction false} ColourWallPath(t: Colour, x: Colour, p: seq<Cell>, k: nat)
    requires x != t
    requires FreshPath([[-1], [-1], [-1]], [[t], [x], [x]], t, p) && p[0] == (0, 0) && k < |p|
    ensures p[k] == (0, 0)
  {
    if k > 0 {
      ColourWallPath(t, x, p, k - 1);
    }
  }

  /** One target cell followed by two cells of another colour, none visited:
      the search from the first cell marks it alone, and the cell beyond the
      other-coloured one, never reached, stays -1. */
  lemma UnreachedStays(t: Colour, x: Colour, m1: Marks)
    requires x != t
    requires Grows([[-1], [-1], [-1]], m1)
    requires Marked(m1) - Marked([[-1], [-1], [-1]]) == FreshBlob([[-1], [-1], [-1]], [[t], [x], [x]], t, (0, 0))
    requires ChangedNear([[-1], [-1], [-1]], m1, Marked(m1) - Marked([[-1], [-1], [-1]]), {(0, 0)})
    ensures Marked(m1) - Marked([[-1], [-1], [-1]]) == {(0, 0)}
    ensures m1[2][0] == -1
  {
    var m0: Marks, g: Grid := [[-1], [-1], [-1]], [[t], [x], [x]];
    assert FreshPath(m0, g, t, [(0, 0)]);
    forall q | q in FreshBlob(m0, g, t, (0, 0)) ensures q == (0, 0) {
      var p :| FreshPath(m0, g, t, p) && p[0] == (0, 0) && p[|p| - 1] == q;
      ColourWallPath(t, x, p, |p| - 1);
    }
    assert FreshBlob(m0, g, t, (0, 0)) == {(0, 0)};
    assert !Adjacent((0, 0), (2, 0));
  }

  // ---------------------------------------------------------------------
  // The visited grid in the heap

  /** The visited grid: a list of columns that the search updates in place,
      shared between the caller and every recursive call. */
  class Visited {
    var marks: Marks

    /** One column of -1 entries per column of the board, of the same length. */
    constructor(g: Grid)
      ensures |marks| == |g|
      ensures forall c :: 0 <= c < |g| ==> marks[c] == seq(|g[c]|, r => -1)
    {
      marks := seq(|g|, c requires 0 <= c < |g| => seq(|g[c]|, r => -1));
    }

    /** `visited[col][row] = value`. */
    method Set(col: int, row: int, value: int)
      requires 0 <= col < |marks| && 0 <= row < |marks[col]|
      modifies this
      ensures marks == old(marks)[col := old(marks)[col][row := value]]
    {
      marks := marks[col := marks[col][row := value]];
    }
  }

  /** `_undiscovered_blob_size`, with pos = (row, col) passed as its two
      components. Out of bounds it returns 0
      and changes nothing; otherwise it visits pos and, when pos is an
      unvisited cell of the target colour, every unvisited target-coloured
      cell connected to it through unvisited cells, and returns how many
      cells it marked 1. */
  method UndiscoveredBlobSize(target: Colour, row: int, col: int, board: Grid, visited: Visited)
    returns (blobSize: int)
    requires Consistent(visited.marks, board, target)
    modifies visited
    ensures Explored(old(visited.marks), visited.marks, board, target, (col, row))
    ensures Settled(visited.marks, col, row)
    ensures blobSize == |Marked(visited.marks)| - |Marked(old(visited.marks))|
    ensures Confined(old(visited.marks), visited.marks, (col, row))
    ensures ChangedNear(old(visited.marks), visited.marks, Marked(visited.marks) - Marked(old(visited.marks)), {(col, row)})
    ensures Marked(visited.marks) - Marked(old(visited.marks)) == FreshBlob(old(visited.marks), board, target, (col, row))
    ensures blobSize == |FreshBlob(old(visited.marks), board, target, (col, row))|
    ensures !InBounds(board, col, row) ==> blobSize == 0 && visited.marks == old(visited.marks)
    ensures 0 <= col < |old(visited.marks)| && 0 <= row < |old(visited.marks)[col]| && old(visited.marks)[col][row] != -1 ==>
      blobSize == 0 && visited.marks == old(visited.marks)
    decreases Unvisited(visited.marks), 2
  {
    blobSize := 0;
    ghost var m0 := visited.marks;

    if col >= |board| || col < 0 || row >= |board[0]| || row < 0 {
      ExploredNothing(m0, board, target, (col, row));
      SearchIsFresh(m0, m0, board, target, (col, row));
      return 0;
    } else {
      if board[col][row] == target && visited.marks[col][row] == -1 {
        blobSize := MarkAndSpread(target, row, col, board, visited);
      } else if board[col][row] != target {
        if visited.marks[col][row] == -1 {
          visited.Set(col, row, 0);
          MarkZero(m0, visited.marks, board, target, col, row);
        } else {
          ExploredNothing(m0, board, target, (col, row));
        }
        SearchIsFresh(m0, visited.marks, board, target, (col, row));
      } else {
        ExploredNothing(m0, board, target, (col, row));
        SearchIsFresh(m0, m0, board, target, (col, row));
      }
    }
  }

  /** The branch of `_undiscovered_blob_size` for an unvisited cell of the
      target colour: count it, mark it 1, then search its four neighbours. */
  method MarkAndSpread(target: Colour, row: int, col: int, board: Grid, visited: Visited)
    returns (blobSize: int)
    requires Consistent(visited.marks, board, target)
    requires InBounds(board, col, row) && board[col][row] == target && visited.marks[col][row] == -1
    modifies visited
    ensures Explored(old(visited.marks), visited.marks, board, target, (col, row))
    ensures Settled(visited.marks, col, row)
    ensures Confined(old(visited.marks), visited.marks, (col, row))
    ensures ChangedNear(old(visited.marks), visited.marks, Marked(visited.marks) - Marked(old(visited.marks)), {(col, row)})
    ensures Marked(visited.marks) - Marked(old(visited.marks)) == FreshBlob(old(visited.marks), board, target, (col, row))
    ensures blobSize == |FreshBlob(old(visited.marks), board, target, (col, row))|
    decreases Unvisited(visited.marks), 1
  {
    blobSize := 0;
    ghost var m0 := visited.marks;
    blobSize := blobSize + 1;
    visited.Set(col, row, 1);
    ghost var m1 := visited.marks;
    MarkStart(m0, m1, board, target, col, row);

    var s := SearchNeighbour(target, row, col, row, col + 1, 0, board, visited, m1);
    blobSize := blobSize + s;
    s := SearchNeighbour(target, row, col, row, col - 1, 1, board, visited, m1);
    blobSize := blobSize + s;
    s := SearchNeighbour(target, row, col, row + 1, col, 2, board, visited, m1);
    blobSize := blobSize + s;
    s := SearchNeighbour(target, row, col, row - 1, col, 3, board, visited, m1);
    blobSize := blobSize + s;

    FinishMark(m0, m1, visited.marks, board, target, (col, row));
  }

  /** One `blob_size += self._undiscovered_blob_size(...)` step of the search
      from (col, row), which was marked in state m1: the search from its k-th
      neighbour (ncol, nrow) extends what the search from (col, row) has
      explored. */
  method SearchNeighbour(target: Colour, row: int, col: int, nrow: int, ncol: int, k: int, board: Grid,
                         visited: Visited, ghost m1: Marks)
    returns (s: int)
    requires OnColour(board, target, (col, row)) && 0 <= k < 4 && Neighbour(col, row, k) == (ncol, nrow)
    requires Progress(m1, visited.marks, board, target, col, row, k)
    modifies visited
    ensures Progress(m1, visited.marks, board, target, col, row, k + 1)
    ensures s == |Marked(visited.marks)| - |Marked(old(visited.marks))|
    decreases Unvisited(m1), 3
  {
    ghost var mk := visited.marks;
    GrowsFacts(m1, mk);
    s := UndiscoveredBlobSize(target, nrow, ncol, board, visited);
    NeighbourStep(m1, mk, visited.marks, board, target, (col, row), (ncol, nrow), k);
  }

  // ---------------------------------------------------------------------
  // The sweep of `BlobGoal.score`

  /** A closed marking holds whole blobs: from a marked cell, every connected
      target-coloured cell is marked too. */
  lemma ClosedSpread(m: Marks, g: Grid, target: Colour, a: Cell, b: Cell)
    requires Consistent(m, g, target) && Closed(m)
    requires a in Marked(m) && Connected(g, target, a, b)
    ensures b in Marked(m)
  {
    var p :| IsPath(g, target, p) && p[0] == a && p[|p| - 1] == b;
    PathMarked(m, g, target, p, |p| - 1);
  }

  lemma {:induction false} PathMarked(m: Marks, g: Grid, target: Colour, p: seq<Cell>, k: nat)
    requires Consistent(m, g, target) && Closed(m)
    requires IsPath(g, target, p) && p[0] in Marked(m) && k < |p|
    ensures p[k] in Marked(m)
  {
    if k > 0 {
      PathMarked(m, g, target, p, k - 1);
      var q, n := p[k - 1], p[k];
      assert AroundSettled(m, q) && Adjacent(q, n) && OnColour(g, target, n);
      assert Settled(m, n.0, n.1);
      assert m[n.0][n.1] == 1;
    }
  }

  /** What the sweep keeps: cm is non-negative, no marked cell lies in a blob
      larger than cm, and a positive cm is the size of some marked cell's blob. */
  ghost predicate MaxSoFar(m: Marks, g: Grid, target: Colour, cm: int)
  {
    && cm >= 0
    && (forall q :: q in Marked(m) ==> |BlobOf(g, target, q)| <= cm)
    && (cm > 0 ==> exists q :: q in Marked(m) && |BlobOf(g, target, q)| == cm)
  }

  lemma CardDifference(a: set<Cell>, b: set<Cell>)
    requires b <= a
    ensures |a| == |b| + |a - b|
  {
    assert a == b + (a - b);
  }

  /** One search of the sweep, started from p on a closed marking, marks
      exactly the blob of p when it marks anything. */
  lemma SearchFindsBlob(m0: Marks, m1: Marks, g: Grid, target: Colour, p: Cell)
    requires Consistent(m0, g, target) && Closed(m0)
    requires Explored(m0, m1, g, target, p) && Closed(m1) && InBounds(g, p.0, p.1) && Settled(m1, p.0, p.1)
    requires Marked(m1) - Marked(m0) != {}
    ensures Marked(m1) - Marked(m0) == BlobOf(g, target, p)
  {
    var q0 :| q0 in Marked(m1) - Marked(m0);
    ConnectedEnds(g, target, p, q0);
    assert p in Marked(m1);
    forall x | x in BlobOf(g, target, p) ensures x in Marked(m1) - Marked(m0) {
      InBlob(g, target, p, x);
      ClosedSpread(m1, g, target, p, x);
      if x in Marked(m0) {
        ConnectedSymmetric(g, target, p, x);
        ClosedSpread(m0, g, target, x, p);
        ClosedSpread(m0, g, target, p, q0);
      }
    }
    forall x | x in Marked(m1) - Marked(m0) ensures x in BlobOf(g, target, p) {
      InBlob(g, target, p, x);
    }
  }

  /** A search on a closed marking leaves it closed. */
  lemma SearchKeepsClosed(m0: Marks, m1: Marks, g: Grid, target: Colour, p: Cell)
    requires Closed(m0) && Explored(m0, m1, g, target, p)
    ensures Closed(m1)
  {
    GrowsFacts(m0, m1);
    forall q | q in Marked(m1) ensures AroundSettled(m1, q) {
      if q in Marked(m0) {
        assert AroundSettled(m0, q);
      }
    }
  }

  /** One step of the sweep: the search from p on a closed marking keeps the
      marking closed, and taking the larger of cm and its count keeps MaxSoFar. */
  lemma SweepStep(m0: Marks, m1: Marks, g: Grid, target: Colour, p: Cell, r: int, cm: int)
    requires Consistent(m0, g, target) && Closed(m0) && MaxSoFar(m0, g, target, cm)
    requires Explored(m0, m1, g, target, p) && InBounds(g, p.0, p.1) && Settled(m1, p.0, p.1)
    requires r == |Marked(m1)| - |Marked(m0)|
    ensures Closed(m1) && MaxSoFar(m1, g, target, if r > cm then r else cm)
  {
    SearchKeepsClosed(m0, m1, g, target, p);
    GrowsFacts(m0, m1);
    CardDifference(Marked(m1), Marked(m0));
    if Marked(m1) - Marked(m0) != {} {
      SearchFindsBlob(m0, m1, g, target, p);
      SweepNewMax(m0, m1, g, target, p, r, cm);
    } else {
      assert Marked(m1) == Marked(m0);
    }
  }

  /** When the search marked p's blob of r cells, the larger of cm and r
      bounds every marked cell's blob and is reached. */
  lemma SweepNewMax(m0: Marks, m1: Marks, g: Grid, target: Colour, p: Cell, r: int, cm: int)
    requires MaxSoFar(m0, g, target, cm) && Marked(m0) <= Marked(m1)
    requires Marked(m1) - Marked(m0) == BlobOf(g, target, p) != {}
    requires r == |BlobOf(g, target, p)|
    ensures MaxSoFar(m1, g, target, if r > cm then r else cm)
  {
    var cm' := if r > cm then r else cm;
    forall q | q in Marked(m1) ensures |BlobOf(g, target, q)| <= cm' {
      if q !in Marked(m0) {
        SameBlob(g, target, p, q);
      }
    }
    if r > cm {
      var q0 :| q0 in Marked(m1) - Marked(m0);
      ConnectedEnds(g, target, p, q0);
      OwnBlob(g, target, p);
      assert p in Marked(m1) && |BlobOf(g, target, p)| == cm';
    }
  }

  /** The cells of columns 0 .. col-1, and rows 0 .. row-1 of column col, have
      been visited. */
  ghost predicate VisitedBefore(m: Marks, col: int, row: int)
  {
    forall c, r :: 0 <= c < |m| && 0 <= r < |m[c]| && (c < col || (c == col && r < row)) ==> m[c][r] != -1
  }

  lemma VisitedStep(m0: Marks, m1: Marks, col: int, row: int)
    requires VisitedBefore(m0, col, row) && Grows(m0, m1) && Settled(m1, col, row)
    ensures VisitedBefore(m1, col, row + 1)
  {
    GrowsFacts(m0, m1);
    forall c, r | 0 <= c < |m1| && 0 <= r < |m1[c]| && (c < col || (c == col && r < row + 1))
      ensures m1[c][r] != -1
    {
      assert Settled(m0, c, r) || (c == col && r == row);
    }
  }

  lemma ColumnVisited(m: Marks, g: Grid, col: int)
    requires Fits(m, g) && 0 <= col < |g| && VisitedBefore(m, col, |g[0]|)
    ensures VisitedBefore(m, col + 1, 0)
  {
  }

  /** When every cell has been visited, every target-coloured cell is marked. */
  lemma MarkedCovers(m: Marks, g: Grid, target: Colour)
    requires Consistent(m, g, target) && VisitedBefore(m, |g|, 0)
    ensures forall c, r :: OnColour(g, target, (c, r)) ==> (c, r) in Marked(m)
  {
    forall c, r | OnColour(g, target, (c, r)) ensures (c, r) in Marked(m) {
      assert m[c][r] != -1;
    }
  }

  /** When every cell has been visited, MaxSoFar is the largest blob. */
  lemma SweepDone(m: Marks, g: Grid, target: Colour, cm: int)
    requires Consistent(m, g, target) && MaxSoFar(m, g, target, cm) && VisitedBefore(m, |g|, 0)
    ensures cm == LargestBlob(g, target)
  {
    MarkedCovers(m, g, target);
    var s := BlobSizes(g, target);
    forall c, r | 0 <= c < |g| && 0 <= r < |g[c]| ensures s[c][r] <= cm {
      BlobSizeAt(g, target, c, r);
      if !OnColour(g, target, (c, r)) {
        OffColourBlob(g, target, (c, r));
      }
    }
    if cm > 0 {
      var q :| q in Marked(m) && |BlobOf(g, target, q)| == cm;
      BlobSizeAt(g, target, q.0, q.1);
    }
    GridMaxUnique(s, cm);
  }

  /** The nested loops of `BlobGoal.score` over a visited grid that starts
      all -1: a search from every cell, keeping the largest count. Afterwards
      no cell is unvisited, and the result is the largest blob. */
  method Sweep(target: Colour, flattened: Grid, visited: Visited) returns (currMax: int)
    requires Consistent(visited.marks, flattened, target) && Marked(visited.marks) == {}
    modifies visited
    ensures IsLargestBlob(flattened, target, currMax)
    ensures currMax == LargestBlob(flattened, target)
    ensures forall c, r :: 0 <= c < |visited.marks| && 0 <= r < |visited.marks[c]| ==> visited.marks[c][r] != -1
  {
    currMax := 0;
    var col := 0;
    while col < |flattened|
      invariant 0 <= col <= |flattened|
      invariant Consistent(visited.marks, flattened, target) && Closed(visited.marks)
      invariant MaxSoFar(visited.marks, flattened, target, currMax)
      invariant VisitedBefore(visited.marks, col, 0)
    {
      var row := 0;
      while row < |flattened[0]|
        invariant 0 <= row <= |flattened[0]|
        invariant Consistent(visited.marks, flattened, target) && Closed(visited.marks)
        invariant MaxSoFar(visited.marks, flattened, target, currMax)
        invariant VisitedBefore(visited.marks, col, row)
      {
        ghost var m0 := visited.marks;
        var possBlob := UndiscoveredBlobSize(target, row, col, flattened, visited);
        SweepStep(m0, visited.marks, flattened, target, (col, row), possBlob, currMax);
        VisitedStep(m0, visited.marks, col, row);
        if possBlob > currMax {
          currMax := possBlob;
        }
        row := row + 1;
      }
      ColumnVisited(visited.marks, flattened, col);
      col := col + 1;
    }
    SweepDone(visited.marks, flattened, target, currMax);
    LargestBlobIsLargest(flattened, target);
  }

  /** `BlobGoal.score`: rasterise, start a visited grid of -1 entries, sweep. */
  method BlobScore(target: Colour, board: Block) returns (currMax: int)
    requires WellFormed(board)
    ensures IsLargestBlob(GridOf(board), target, currMax)
    ensures currMax == LargestBlob(GridOf(board), target)
  {
    var flattened := Flatten(board);
    var visited := new Visited(flattened);
    assert Consistent(visited.marks, flattened, target);
    currMax := Sweep(target, flattened, visited);
  }

  // ---------------------------------------------------------------------
  // A grid of one colour

  /** The cells of columns 0 .. w-1, rows 0 .. h-1. */
  ghost function Cells(w: int, h: int): set<Cell>
  {
    set c, r | 0 <= c < w && 0 <= r < h :: (c, r)
  }

  /** Rows 0 .. h-1 of column c. */
  ghost function ColumnCells(c: int, h: int): set<Cell>
  {
    set r | 0 <= r < h :: (c, r)
  }

  lemma {:induction false} ColumnCount(c: int, h: nat)
    ensures |ColumnCells(c, h)| == h
  {
    if h > 0 {
      ColumnCount(c, h - 1);
      assert ColumnCells(c, h) == ColumnCells(c, h - 1) + {(c, h - 1)};
    }
  }

  /** The cells of w columns are those of w - 1 columns and, apart from them,
      those of the last column. */
  lemma CellsSplit(w: nat, h: nat)
    requires w > 0
    ensures Cells(w, h) == Cells(w - 1, h) + ColumnCells(w - 1, h)
    ensures Cells(w - 1, h) * ColumnCells(w - 1, h) == {}
  {
    forall q | q in Cells(w, h) ensures q in Cells(w - 1, h) + ColumnCells(w - 1, h) {
      if q.0 < w - 1 {
        assert q in Cells(w - 1, h);
      } else {
        assert q in ColumnCells(w - 1, h);
      }
    }
  }

  lemma {:induction false} CellsCount(w: nat, h: nat)
    ensures |Cells(w, h)| == w * h
  {
    if w > 0 {
      CellsCount(w - 1, h);
      ColumnCount(w - 1, h);
      CellsSplit(w, h);
      assert (w - 1) * h + h == w * h;
    }
  }

  ghost predicate Uniform(g: Grid, target: Colour)
  {
    Rectangular(g) && forall c, r :: 0 <= c < |g| && 0 <= r < |g[c]| ==> g[c][r] == target
  }

  /** On a grid of one colour any two cells are connected. */
  lemma UniformConnected(g: Grid, target: Colour, a: Cell, b: Cell)
    requires Uniform(g, target) && InBounds(g, a.0, a.1) && InBounds(g, b.0, b.1)
    ensures Connected(g, target, a, b)
    decreases (if a.0 < b.0 then b.0 - a.0 else a.0 - b.0) + (if a.1 < b.1 then b.1 - a.1 else a.1 - b.1)
  {
    if a == b {
      ConnectedSelf(g, target, a);
    } else {
      var n := if a.0 < b.0 then (a.0 + 1, a.1)
               else if a.0 > b.0 then (a.0 - 1, a.1)
               else if a.1 < b.1 then (a.0, a.1 + 1)
               else (a.0, a.1 - 1);
      UniformConnected(g, target, n, b);
      ConnectedStep(g, target, a, n, b);
    }
  }

  /** On a grid of one colour every cell's blob is the whole grid. */
  lemma UniformBlobOf(g: Grid, target: Colour, a: Cell)
    requires Uniform(g, target) && InBounds(g, a.0, a.1)
    ensures BlobOf(g, target, a) == Cells(|g|, Height(g))
  {
    var all := Cells(|g|, Height(g));
    forall q | q in all ensures q in BlobOf(g, target, a) {
      UniformConnected(g, target, a, q);
    }
    forall q | q in BlobOf(g, target, a) ensures q in all {
    }
  }

  /** An all-target grid of w columns and h rows has one blob of w * h cells. */
  lemma UniformBlob(g: Grid, target: Colour, size: int)
    requires Uniform(g, target) && |g| >= 1 && Height(g) >= 1
    requires IsLargestBlob(g, target, size)
    ensures size == |g| * Height(g)
  {
    CellsCount(|g|, Height(g));
    UniformBlobOf(g, target, (0, 0));
    assert OnColour(g, target, (0, 0));
    var c, r :| OnColour(g, target, (c, r)) && |BlobOf(g, target, (c, r))| == size;
    UniformBlobOf(g, target, (c, r));
  }

  // ---------------------------------------------------------------------
  // The largest blob is unique

  lemma {:induction false} ColumnMaxBounds(col: seq<nat>, n: nat, size: int)
    requires n <= |col| && size >= 0
    requires forall r :: 0 <= r < n ==> col[r] <= size
    ensures ColumnMax(col, n) <= size
  {
    if n > 0 {
      ColumnMaxBounds(col, n - 1, size);
    }
  }

  lemma {:induction false} ColumnMaxAbove(col: seq<nat>, n: nat, r: int)
    requires 0 <= r < n <= |col|
    ensures col[r] <= ColumnMax(col, n)
  {
    if r < n - 1 {
      ColumnMaxAbove(col, n - 1, r);
    }
  }

  lemma {:induction false} ColumnMaxAttained(col: seq<nat>, n: nat)
    requires n <= |col|
    ensures ColumnMax(col, n) == 0 || exists r :: 0 <= r < n && col[r] == ColumnMax(col, n)
  {
    if n > 0 {
      ColumnMaxAttained(col, n - 1);
    }
  }

  lemma {:induction false} GridMaxBounds(s: seq<seq<nat>>, w: nat, size: int)
    requires w <= |s| && size >= 0
    requires forall c, r :: 0 <= c < w && 0 <= r < |s[c]| ==> s[c][r] <= size
    ensures GridMax(s, w) <= size
  {
    if w > 0 {
      GridMaxBounds(s, w - 1, size);
      ColumnMaxBounds(s[w - 1], |s[w - 1]|, size);
    }
  }

  lemma {:induction false} GridMaxAbove(s: seq<seq<nat>>, w: nat, c: int, r: int)
    requires w <= |s| && 0 <= c < w && 0 <= r < |s[c]|
    ensures s[c][r] <= GridMax(s, w)
  {
    if c < w - 1 {
      GridMaxAbove(s, w - 1, c, r);
    } else {
      ColumnMaxAbove(s[c], |s[c]|, r);
    }
  }

  lemma {:induction false} GridMaxAttained(s: seq<seq<nat>>, w: nat)
    requires w <= |s|
    ensures GridMax(s, w) == 0 ||
      exists c, r :: 0 <= c < w && 0 <= r < |s[c]| && s[c][r] == GridMax(s, w)
  {
    if w > 0 {
      GridMaxAttained(s, w - 1);
      ColumnMaxAttained(s[w - 1], |s[w - 1]|);
    }
  }

  /** A target-coloured cell lies in its own blob. */
  lemma OwnBlob(g: Grid, target: Colour, a: Cell)
    requires OnColour(g, target, a)
    ensures a in BlobOf(g, target, a) && |BlobOf(g, target, a)| >= 1
  {
    ConnectedSelf(g, target, a);
    InBlob(g, target, a, a);
  }

  /** A cell without the target colour has an empty blob. */
  lemma OffColourBlob(g: Grid, target: Colour, q: Cell)
    requires !OnColour(g, target, q)
    ensures BlobOf(g, target, q) == {}
  {
    forall x | x in BlobOf(g, target, q) ensures false {
      InBlob(g, target, q, x);
      ConnectedEnds(g, target, q, x);
    }
  }

  /** A bound that every entry respects and some entry reaches (or 0) is the
      maximum. */
  lemma GridMaxUnique(s: seq<seq<nat>>, size: int)
    requires size >= 0
    requires forall c, r :: 0 <= c < |s| && 0 <= r < |s[c]| ==> s[c][r] <= size
    requires size > 0 ==> exists c, r :: 0 <= c < |s| && 0 <= r < |s[c]| && s[c][r] == size
    ensures size == GridMax(s, |s|)
  {
    GridMaxBounds(s, |s|, size);
    if size > 0 {
      var c, r :| 0 <= c < |s| && 0 <= r < |s[c]| && s[c][r] == size;
      GridMaxAbove(s, |s|, c, r);
    }
  }

  /** IsLargestBlob has exactly one solution, LargestBlob. */
  lemma LargestBlobUnique(g: Grid, target: Colour, size: int)
    requires IsLargestBlob(g, target, size)
    ensures size == LargestBlob(g, target)
  {
    var s := BlobSizes(g, target);
    forall c, r | 0 <= c < |g| && 0 <= r < |g[c]| ensures s[c][r] <= size {
      BlobSizeAt(g, target, c, r);
      if !OnColour(g, target, (c, r)) {
        OffColourBlob(g, target, (c, r));
      }
    }
    if size > 0 {
      var c, r :| OnColour(g, target, (c, r)) && |BlobOf(g, target, (c, r))| == size;
      BlobSizeAt(g, target, c, r);
    }
    GridMaxUnique(s, size);
  }

  /** LargestBlob is a solution of IsLargestBlob. */
  lemma LargestBlobIsLargest(g: Grid, target: Colour)
    ensures IsLargestBlob(g, target, LargestBlob(g, target))
  {
    var s := BlobSizes(g, target);
    var size := LargestBlob(g, target);
    forall c, r | OnColour(g, target, (c, r)) ensures |BlobOf(g, target, (c, r))| <= size {
      BlobSizeAt(g, target, c, r);
      GridMaxAbove(s, |g|, c, r);
    }
    GridMaxAttained(s, |g|);
    if size > 0 {
      var c, r :| 0 <= c < |g| && 0 <= r < |g[c]| && s[c][r] == size;
      BlobSizeAt(g, target, c, r);
      if !OnColour(g, target, (c, r)) {
        OffColourBlob(g, target, (c, r));
      }
      assert OnColour(g, target, (c, r));
    }
    forall c, r | OnColour(g, target, (c, r)) ensures size > 0 {
      OwnBlob(g, target, (c, r));
      BlobSizeAt(g, target, c, r);
      GridMaxAbove(s, |g|, c, r);
    }
  }

  /** On a grid of one colour the largest blob is the whole grid. */
  lemma UniformLargest(g: Grid, target: Colour)
    requires Uniform(g, target) && |g| >= 1 && Height(g) >= 1
    ensures LargestBlob(g, target) == |g| * Height(g)
  {
    LargestBlobIsLargest(g, target);
    UniformBlob(g, target, LargestBlob(g, target));
  }

  /** Without a target-coloured cell the largest blob is empty. */
  lemma AbsentLargest(g: Grid, target: Colour)
    requires forall c, r :: 0 <= c < |g| && 0 <= r < |g[c]| ==> g[c][r] != target
    ensures LargestBlob(g, target) == 0
  {
    LargestBlobIsLargest(g, target);
  }
}
