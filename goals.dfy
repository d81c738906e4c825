/** The goals of goal.py: a perimeter goal or a blob goal on a target colour,
    the score each gives a board, and the factory that deals one goal per
    player. */
module Goals {
  import opened Blocks
  import opened Raster
  import opened Perimeter
  import opened Blob

  datatype Goal = PerimeterGoal(colour: Colour) | BlobGoal(colour: Colour)

  /** What a goal awards for a board: the perimeter points of the target colour
      on the board's raster, or the size of its largest target-coloured blob. */
  ghost function Points(goal: Goal, board: Block): nat
    requires WellFormed(board)
  {
    match goal
    case PerimeterGoal(c) => PerimeterPoints(GridOf(board), c)
    case BlobGoal(c) => LargestBlob(GridOf(board), c)
  }

  /** `score`, dispatched to the goal's class. The score is never negative. */
  method Score(goal: Goal, board: Block) returns (score: int)
    requires WellFormed(board)
    ensures score == Points(goal, board)
    ensures score >= 0
  {
    match goal
    case PerimeterGoal(c) =>
      score := PerimeterScore(c, board);
    case BlobGoal(c) =>
      score := BlobScore(c, board);
  }

  lemma RasterSquare(board: Block)
    requires WellFormed(board)
    ensures Square(GridOf(board)) && Height(GridOf(board)) == Side(board)
  {
  }

  /** A board whose every unit cell has the goal's colour scores 4 points per
      unit of side on the perimeter (8 for a single cell, whose corner is
      tested four times), and its whole area as a blob. */
  lemma UniformBoard(goal: Goal, board: Block)
    requires WellFormed(board)
    requires forall i, j :: 0 <= i < Side(board) && 0 <= j < Side(board) ==> GridOf(board)[i][j] == goal.colour
    ensures goal.PerimeterGoal? ==> Points(goal, board) == if Side(board) == 1 then 8 else 4 * Side(board)
    ensures goal.BlobGoal? ==> Points(goal, board) == Side(board) * Side(board)
  {
    var g := GridOf(board);
    RasterSquare(board);
    if goal.PerimeterGoal? {
      if Side(board) == 1 {
        PerimeterSingleCell(g, goal.colour);
      } else {
        PerimeterUniform(g, goal.colour);
      }
    } else {
      assert Uniform(g, goal.colour);
      UniformLargest(g, goal.colour);
    }
  }

  /** An undivided board of the goal's colour is a special case. */
  lemma UniformLeaf(goal: Goal, board: Block)
    requires WellFormed(board) && |board.children| == 0 && board.colour == goal.colour
    ensures goal.PerimeterGoal? ==> Points(goal, board) == if Side(board) == 1 then 8 else 4 * Side(board)
    ensures goal.BlobGoal? ==> Points(goal, board) == Side(board) * Side(board)
  {
    forall i, j | 0 <= i < Side(board) && 0 <= j < Side(board) ensures GridOf(board)[i][j] == goal.colour {
      LeafCells(board, i, j);
    }
    UniformBoard(goal, board);
  }

  /** A board without a unit cell of the goal's colour scores 0. */
  lemma AbsentColour(goal: Goal, board: Block)
    requires WellFormed(board)
    requires forall i, j :: 0 <= i < Side(board) && 0 <= j < Side(board) ==> GridOf(board)[i][j] != goal.colour
    ensures Points(goal, board) == 0
  {
    var g := GridOf(board);
    RasterSquare(board);
    if goal.PerimeterGoal? {
      PerimeterAbsent(g, goal.colour);
    } else {
      AbsentLargest(g, goal.colour);
    }
  }

  /** The board of one subdivision whose top-right and top-left quadrants are
      red and whose bottom quadrants are blue. */
  function TwoByTwo(red: Colour, blue: Colour): Block
  {
    var q := (x: int, y: int, c: Colour) => Block((x, y), 1, c, 1, 1, []);
    Block((0, 0), 2, blue, 0, 1, [q(1, 0, red), q(0, 0, red), q(0, 1, blue), q(1, 1, blue)])
  }

  /** Its two red cells are both corners, tested once each at 2 points, and
      there are no other boundary cells: the perimeter goal on red scores 4. */
  lemma TwoByTwoScores(red: Colour, blue: Colour)
    requires red != blue
    ensures WellFormed(TwoByTwo(red, blue))
    ensures Points(PerimeterGoal(red), TwoByTwo(red, blue)) == 4
  {
    var b := TwoByTwo(red, blue);
    assert WellFormed(b.children[0]) && WellFormed(b.children[1]);
    assert WellFormed(b.children[2]) && WellFormed(b.children[3]);
    var g := GridOf(b);
    NodeColumns(b, 0);
    NodeColumns(b, 1);
    assert Side(b) == 2;
    forall k | 0 <= k < 4 ensures GridOf(b.children[k])[0] == [b.children[k].colour] {
      assert Side(b.children[k]) == 1;
      LeafCells(b.children[k], 0, 0);
    }
    assert g[0] == [red, blue] && g[1] == [red, blue];
    assert g == [[red, blue], [red, blue]];
    PerimeterDecomposition(g, red);
  }

  // ---------------------------------------------------------------------
  // Dealing goals

  /** The colours picked by a sequence of palette indices. */
  function Drawn(palette: seq<Colour>, draws: seq<int>): (s: seq<Colour>)
    requires forall k :: 0 <= k < |draws| ==> 0 <= draws[k] < |palette|
    ensures |s| == |draws|
    ensures forall k :: 0 <= k < |draws| ==> s[k] == palette[draws[k]]
  {
    seq(|draws|, k requires 0 <= k < |draws| => palette[draws[k]])
  }

  /** The distinct elements of s, in order of first occurrence. */
  ghost function Dedup(s: seq<Colour>): seq<Colour>
  {
    if |s| == 0 then []
    else
      var d := Dedup(s[..|s| - 1]);
      if s[|s| - 1] in d then d else d + [s[|s| - 1]]
  }

  ghost predicate Distinct(s: seq<Colour>)
  {
    forall i, j :: 0 <= i < j < |s| ==> s[i] != s[j]
  }

  lemma {:induction false} DedupFacts(s: seq<Colour>)
    ensures Distinct(Dedup(s))
    ensures forall x :: x in Dedup(s) <==> x in s
  {
    if |s| > 0 {
      var p := s[..|s| - 1];
      DedupFacts(p);
      assert s == p + [s[|s| - 1]];
    }
  }

  lemma {:induction false} DedupPrefix(s: seq<Colour>, i: nat)
    requires i <= |s|
    ensures Dedup(s[..i]) <= Dedup(s)
    decreases |s| - i
  {
    if i < |s| {
      DedupPrefix(s, i + 1);
      assert s[..i + 1][..i] == s[..i];
    } else {
      assert s[..i] == s;
    }
  }

  /** The goal-building loop of `generate_goals`: one goal per colour, all
      perimeter goals when goalIndex is 0 and all blob goals otherwise. */
  method GoalsOf(colours: seq<Colour>, goalIndex: int) returns (goals: seq<Goal>)
    ensures |goals| == |colours|
    ensures forall m :: 0 <= m < |colours| ==> goals[m].colour == colours[m]
    ensures forall m :: 0 <= m < |colours| ==> (goals[m].PerimeterGoal? <==> goalIndex == 0)
  {
    goals := [];
    if goalIndex == 0 {
      for k := 0 to |colours|
        invariant |goals| == k
        invariant forall m :: 0 <= m < k ==> goals[m] == PerimeterGoal(colours[m])
      {
        goals := goals + [PerimeterGoal(colours[k])];
      }
    } else {
      for k := 0 to |colours|
        invariant |goals| == k
        invariant forall m :: 0 <= m < k ==> goals[m] == BlobGoal(colours[m])
      {
        goals := goals + [BlobGoal(colours[k])];
      }
    }
  }

  /** `generate_goals`: the palette indices the factory draws are `draws`, the
      kind it draws is `goalIndex`. The colours are the first numGoals distinct
      colours drawn, in the order drawn; the goals are all of one kind. */
  method GenerateGoals(numGoals: nat, palette: seq<Colour>, draws: seq<int>, goalIndex: int)
    returns (goals: seq<Goal>)
    requires numGoals <= |palette|
    requires forall k :: 0 <= k < |draws| ==> 0 <= draws[k] < |palette|
    requires |Dedup(Drawn(palette, draws))| >= numGoals
    requires 0 <= goalIndex <= 2
    ensures |goals| == numGoals
    ensures forall i :: 0 <= i < numGoals ==> goals[i].colour == Dedup(Drawn(palette, draws))[i]
    ensures forall i :: 0 <= i < numGoals ==> goals[i].colour in palette
    ensures forall i, j :: 0 <= i < j < numGoals ==> goals[i].colour != goals[j].colour
    ensures forall i :: 0 <= i < numGoals ==> (goals[i].PerimeterGoal? <==> goalIndex == 0)
  {
    ghost var drawn := Drawn(palette, draws);
    var colourChoices: seq<Colour> := [];
    var i := 0;
    while |colourChoices| != numGoals
      invariant 0 <= i <= |draws|
      invariant colourChoices == Dedup(drawn[..i])
      invariant |colourChoices| <= numGoals
      decreases |draws| - i
    {
      assert drawn[..|draws|] == drawn;
      assert i < |draws|;
      var index := draws[i];
      var colour := palette[index];
      assert drawn[..i + 1][..i] == drawn[..i];
      if colour !in colourChoices {
        colourChoices := colourChoices + [colour];
      }
      i := i + 1;
    }
    DedupPrefix(drawn, i);
    DedupFacts(drawn);
    goals := GoalsOf(colourChoices, goalIndex);
    forall m | 0 <= m < numGoals ensures goals[m].colour in palette {
      assert goals[m].colour in drawn;
    }
  }
}
