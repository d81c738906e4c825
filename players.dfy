/** The players of player.py: a human player driven by key presses and the
    pointer, a random player, a greedy ("smart") player, and the dealing of
    goals to a roster of players. */
module Players {
  import opened Blocks
  import opened Actions
  import opened Locate
  import opened Goals

  /** `_create_move`: the action's name and direction, aimed at block. */
  function CreateMove(action: Action, block: Block): (m: Move)
    ensures (m.0, m.1) == action && m.2 == block
  {
    (action.0, action.1, block)
  }

  /** The input events a player reacts to. A key bound to an action carries
      that action. */
  datatype Key = ActionKey(action: Action) | KeyW | KeyS | OtherKey
  datatype Event = KeyDown(key: Key) | MouseButtonDown(button: int) | OtherEvent

  function Min(a: int, b: int): int { if a <= b then a else b }
  function Max(a: int, b: int): int { if a >= b then a else b }

  /** What an action does to a private copy of the board: the board operation it
      names, with its direction or the goal's colour; None when the operation
      fails or the action names none. */
  function Apply(ops: BoardOps, board: Block, action: Action, colour: Colour): Option<Block>
  {
    match action.0
    case Smash => ops.smash(board)
    case Swap => if action.1.Some? then ops.swap(board, action.1.value) else None
    case Rotate => if action.1.Some? then ops.rotate(board, action.1.value) else None
    case Paint => ops.paint(board, colour)
    case Combine => ops.combine(board)
    case Pass => None
  }

  /** The board operations keep the level bookkeeping of the board. */
  ghost predicate KeepsForm(ops: BoardOps)
  {
    forall b, a, c :: WellFormed(b) && Apply(ops, b, a, c).Some? ==> WellFormed(Apply(ops, b, a, c).value)
  }

  // ---------------------------------------------------------------------
  // The human player

  class HumanPlayer {
    const id: int
    const goal: Goal
    /** The level of the block the player selected most recently. */
    var level: int
    /** The most recent action the player is attempting. */
    var desiredAction: Option<Action>

    ghost predicate Valid()
      reads this
    {
      level >= 0
    }

    constructor(playerId: int, goal: Goal)
      ensures Valid()
      ensures id == playerId && this.goal == goal
      ensures level == 0 && desiredAction == None
    {
      id := playerId;
      this.goal := goal;
      level := 0;
      desiredAction := None;
    }

    /** `get_selected_block`, with the pointer position passed in: the block at
        the selected level, capped at the board's maximum depth, that includes
        the location. */
    function SelectedBlock(board: Block, location: Point): (r: Option<Block>)
      reads this
      ensures r.Some? ==> r.value.level == Min(level, board.maxDepth) && Contains(r.value, location) && Within(r.value, board)
    {
      GetBlock(board, location, Min(level, board.maxDepth))
    }

    /** `process_event`: an action key sets the pending action; W selects one
        level up (never above the root) and S one level down, both clearing
        the pending action; any other event changes nothing. */
    method ProcessEvent(event: Event)
      requires Valid()
      modifies this
      ensures Valid()
      ensures event.KeyDown? && event.key.ActionKey? ==>
        level == old(level) && desiredAction == Some(event.key.action)
      ensures event == KeyDown(KeyW) ==> level == Max(0, old(level) - 1) && desiredAction == None
      ensures event == KeyDown(KeyS) ==> level == old(level) + 1 && desiredAction == None
      ensures event.OtherEvent? || event.MouseButtonDown? || event == KeyDown(OtherKey) ==>
        level == old(level) && desiredAction == old(desiredAction)
    {
      if event.KeyDown? {
        if event.key.ActionKey? {
          desiredAction := Some(event.key.action);
        } else if event.key == KeyW {
          level := Max(0, level - 1);
          desiredAction := None;
        } else if event.key == KeyS {
          level := level + 1;
          desiredAction := None;
        }
      }
    }

    /** `generate_move`, with the pointer position passed in: no move unless a
        block is selected and an action is pending; otherwise the pending
        action on the selected block, and the action is used up. */
    method GenerateMove(board: Block, location: Point) returns (move: Option<Move>)
      requires Valid()
      modifies this
      ensures Valid() && level == old(level)
      ensures old(SelectedBlock(board, location)).None? || old(desiredAction).None? ==>
        move == None && desiredAction == old(desiredAction)
      ensures old(SelectedBlock(board, location)).Some? && old(desiredAction).Some? ==>
        move == Some(CreateMove(old(desiredAction).value, old(SelectedBlock(board, location)).value)) &&
        desiredAction == None
    {
      var block := SelectedBlock(board, location);
      if block.None? || desiredAction.None? {
        move := None;
      } else {
        move := Some(CreateMove(desiredAction.value, block.value));
        desiredAction := None;
      }
    }
  }

  // ---------------------------------------------------------------------
  // The random player

  /** The actions the random player draws from, in the order of its list. */
  const RANDOM_ACTIONS: seq<Action> :=
    [ROTATE_CLOCKWISE, ROTATE_COUNTER_CLOCKWISE, SWAP_HORIZONTAL, SWAP_VERTICAL, SMASH, PAINT, COMBINE]

  class RandomPlayer {
    const id: int
    const goal: Goal
    /** True when the player should make a move. */
    var proceed: bool

    constructor(playerId: int, goal: Goal)
      ensures id == playerId && this.goal == goal && !proceed
    {
      id := playerId;
      this.goal := goal;
      proceed := false;
    }

    /** `process_event`: a left click lets the player move. */
    method ProcessEvent(event: Event)
      modifies this
      ensures proceed == (old(proceed) || event == MouseButtonDown(1))
    {
      if event.MouseButtonDown? && event.button == 1 {
        proceed := true;
      }
    }

    /** `generate_move`, with the index of the random choice passed in as draw.
        The drawn action is returned when it succeeds on a copy of the board;
        when it fails, the retry finds the player no longer allowed to move
        and yields None. The player must be released again afterwards. */
    method GenerateMove(board: Block, ops: BoardOps, draw: int) returns (move: Option<Action>)
      requires 0 <= draw < |RANDOM_ACTIONS|
      modifies this
      ensures !proceed
      ensures !old(proceed) ==> move == None
      ensures old(proceed) ==>
        move == (if Apply(ops, board, RANDOM_ACTIONS[draw], goal.colour).Some? then Some(RANDOM_ACTIONS[draw]) else None)
      decreases if proceed then 1 else 0
    {
      if !proceed {
        return None;
      }
      var actions := RANDOM_ACTIONS;
      var b := board;
      var action := actions[draw];
      var validMove := false;
      if action == SMASH {
        validMove := ops.smash(b).Some?;
      } else if action == SWAP_VERTICAL {
        validMove := ops.swap(b, 1).Some?;
      } else if action == SWAP_HORIZONTAL {
        validMove := ops.swap(b, 0).Some?;
      } else if action == ROTATE_COUNTER_CLOCKWISE {
        validMove := ops.rotate(b, 3).Some?;
      } else if action == ROTATE_CLOCKWISE {
        validMove := ops.rotate(b, 1).Some?;
      } else if action == COMBINE {
        validMove := ops.combine(b).Some?;
      } else if action == PAINT {
        validMove := ops.paint(b, goal.colour).Some?;
      }
      proceed := false;
      if validMove {
        move := Some(action);
      } else {
        move := GenerateMove(board, ops, draw);
      }
    }
  }

  // ---------------------------------------------------------------------
  // The smart player

  /** The order in which the smart player breaks ties between equal scores. */
  const TIE_BREAK: seq<Action> :=
    [SMASH, SWAP_HORIZONTAL, SWAP_VERTICAL, ROTATE_COUNTER_CLOCKWISE, ROTATE_CLOCKWISE, PAINT, COMBINE]

  /** The smart player's choice given the current score and the score after
      each action (-1 for an action that fails), breaking ties in the order of
      TIE_BREAK. */
  function ChooseAction(current: int, smashScore: int, swapScore0: int, swapScore1: int,
                        rotateScore3: int, rotateScore1: int, paintScore: int, combineScore: int): (r: Action)
    ensures r == PASS || r in TIE_BREAK
  {
    var m := Max(current, Max(smashScore, Max(swapScore0, Max(swapScore1,
               Max(rotateScore3, Max(rotateScore1, Max(paintScore, combineScore)))))));
    if m == current then PASS
    else if m == smashScore then SMASH
    else if m == swapScore0 then SWAP_HORIZONTAL
    else if m == swapScore1 then SWAP_VERTICAL
    else if m == rotateScore3 then ROTATE_COUNTER_CLOCKWISE
    else if m == rotateScore1 then ROTATE_CLOCKWISE
    else if m == paintScore then PAINT
    else COMBINE
  }

  /** The position of an action in the tie-break order. */
  function Rank(a: Action): (i: int)
    requires a in TIE_BREAK
    ensures 0 <= i < 7 && TIE_BREAK[i] == a
  {
    if a == SMASH then 0
    else if a == SWAP_HORIZONTAL then 1
    else if a == SWAP_VERTICAL then 2
    else if a == ROTATE_COUNTER_CLOCKWISE then 3
    else if a == ROTATE_CLOCKWISE then 4
    else if a == PAINT then 5
    else 6
  }

  /** PASS exactly when no action beats the current score; otherwise an
      action with the highest score, and the first such in the tie-break
      order. With s listing the scores in the tie-break order: */
  lemma ChooseActionBest(current: int, smashScore: int, swapScore0: int, swapScore1: int,
                         rotateScore3: int, rotateScore1: int, paintScore: int, combineScore: int)
    ensures var s := [smashScore, swapScore0, swapScore1, rotateScore3, rotateScore1, paintScore, combineScore];
      var r := ChooseAction(current, smashScore, swapScore0, swapScore1, rotateScore3, rotateScore1, paintScore, combineScore);
      && (r == PASS <==> forall i :: 0 <= i < 7 ==> s[i] <= current)
      && (r != PASS ==> var i := Rank(r);
            && s[i] > current
            && (forall j :: 0 <= j < 7 ==> s[j] <= s[i])
            && (forall j :: 0 <= j < i ==> s[j] < s[i]))
  {
    var s := [smashScore, swapScore0, swapScore1, rotateScore3, rotateScore1, paintScore, combineScore];
    var m := Max(current, Max(smashScore, Max(swapScore0, Max(swapScore1,
               Max(rotateScore3, Max(rotateScore1, Max(paintScore, combineScore)))))));
    forall j | 0 <= j < 7 ensures s[j] <= m {
      assert j == 0 || j == 1 || j == 2 || j == 3 || j == 4 || j == 5 || j == 6;
    }
    var r := ChooseAction(current, smashScore, swapScore0, swapScore1, rotateScore3, rotateScore1, paintScore, combineScore);
    if r != PASS {
      var i := Rank(r);
      assert s[i] == m;
      forall j | 0 <= j < i ensures s[j] < m {
        assert j == 0 || j == 1 || j == 2 || j == 3 || j == 4 || j == 5 || j == 6;
      }
    }
  }

  /** What an action scores for the goal on a copy of the board: the goal's
      points after the action, or -1 when the action fails. */
  ghost function Attempt(goal: Goal, ops: BoardOps, board: Block, action: Action): int
    requires WellFormed(board) && KeepsForm(ops)
  {
    var r := Apply(ops, board, action, goal.colour);
    if r.Some? then Points(goal, r.value) else -1
  }

  /** The smart player's decision on a board. */
  ghost function SmartDecision(goal: Goal, ops: BoardOps, board: Block): Action
    requires WellFormed(board) && KeepsForm(ops)
  {
    ChooseAction(Points(goal, board),
      Attempt(goal, ops, board, SMASH), Attempt(goal, ops, board, SWAP_HORIZONTAL),
      Attempt(goal, ops, board, SWAP_VERTICAL), Attempt(goal, ops, board, ROTATE_COUNTER_CLOCKWISE),
      Attempt(goal, ops, board, ROTATE_CLOCKWISE), Attempt(goal, ops, board, PAINT),
      Attempt(goal, ops, board, COMBINE))
  }

  /** The smart player passes exactly when no action improves its score;
      otherwise its action succeeds, strictly improves the score, and no other
      action scores more. */
  lemma SmartDecisionImproves(goal: Goal, ops: BoardOps, board: Block)
    requires WellFormed(board) && KeepsForm(ops)
    ensures var r := SmartDecision(goal, ops, board);
      && (r == PASS <==> forall i :: 0 <= i < 7 ==> Attempt(goal, ops, board, TIE_BREAK[i]) <= Points(goal, board))
      && (r != PASS ==>
            && r in TIE_BREAK
            && Apply(ops, board, r, goal.colour).Some?
            && Points(goal, Apply(ops, board, r, goal.colour).value) > Points(goal, board)
            && forall i :: 0 <= i < 7 ==>
                 Attempt(goal, ops, board, TIE_BREAK[i]) <= Points(goal, Apply(ops, board, r, goal.colour).value))
  {
    var a0, a1 := Attempt(goal, ops, board, SMASH), Attempt(goal, ops, board, SWAP_HORIZONTAL);
    var a2, a3 := Attempt(goal, ops, board, SWAP_VERTICAL), Attempt(goal, ops, board, ROTATE_COUNTER_CLOCKWISE);
    var a4, a5 := Attempt(goal, ops, board, ROTATE_CLOCKWISE), Attempt(goal, ops, board, PAINT);
    var a6 := Attempt(goal, ops, board, COMBINE);
    var s := [a0, a1, a2, a3, a4, a5, a6];
    ChooseActionBest(Points(goal, board), a0, a1, a2, a3, a4, a5, a6);
    forall i | 0 <= i < 7 ensures Attempt(goal, ops, board, TIE_BREAK[i]) == s[i] {
      assert i == 0 || i == 1 || i == 2 || i == 3 || i == 4 || i == 5 || i == 6;
    }
  }

  class SmartPlayer {
    const id: int
    const goal: Goal
    /** The difficulty the player was created with; the move search does not
        consult it. */
    const difficulty: int
    /** True when the player should make a move. */
    var proceed: bool

    constructor(playerId: int, goal: Goal, difficulty: int)
      ensures id == playerId && this.goal == goal && this.difficulty == difficulty && !proceed
    {
      id := playerId;
      this.goal := goal;
      this.difficulty := difficulty;
      proceed := false;
    }

    /** `process_event`: a left click lets the player move. */
    method ProcessEvent(event: Event)
      modifies this
      ensures proceed == (old(proceed) || event == MouseButtonDown(1))
    {
      if event.MouseButtonDown? && event.button == 1 {
        proceed := true;
      }
    }

    /** `generate_move`: scores the board and, on a fresh copy each, the board
        after every action, then returns the smart decision. */
    method GenerateMove(board: Block, ops: BoardOps) returns (move: Option<Action>)
      requires WellFormed(board) && KeepsForm(ops)
      modifies this
      ensures !proceed
      ensures !old(proceed) ==> move == None
      ensures old(proceed) ==> move == Some(SmartDecision(goal, ops, board))
    {
      if !proceed {
        return None;
      }
      var currScore := Score(goal, board);
      var smashScore := Attempted(ops.smash(board), ops, board, SMASH);
      var swapScore1 := Attempted(ops.swap(board, 1), ops, board, SWAP_VERTICAL);
      var swapScore0 := Attempted(ops.swap(board, 0), ops, board, SWAP_HORIZONTAL);
      var rotateScore1 := Attempted(ops.rotate(board, 1), ops, board, ROTATE_CLOCKWISE);
      var rotateScore3 := Attempted(ops.rotate(board, 3), ops, board, ROTATE_COUNTER_CLOCKWISE);
      var paintScore := Attempted(ops.paint(board, goal.colour), ops, board, PAINT);
      var combineScore := Attempted(ops.combine(board), ops, board, COMBINE);
      proceed := false;
      move := Some(ChooseAction(currScore, smashScore, swapScore0, swapScore1,
                                rotateScore3, rotateScore1, paintScore, combineScore));
    }

    /** The score of one changed copy, -1 when the operation failed. */
    method Attempted(copy: Option<Block>, ops: BoardOps, board: Block, action: Action) returns (score: int)
      requires WellFormed(board) && KeepsForm(ops)
      requires copy == Apply(ops, board, action, goal.colour)
      ensures score == Attempt(goal, ops, board, action)
    {
      if copy.Some? {
        score := Score(goal, copy.value);
      } else {
        score := -1;
      }
    }
  }

  /** The random and the smart player consider the same seven actions, each
      once, and neither considers PASS. */
  lemma SameActions()
    ensures |RANDOM_ACTIONS| == |TIE_BREAK| == 7
    ensures forall a :: a in RANDOM_ACTIONS <==> a in TIE_BREAK
    ensures PASS !in RANDOM_ACTIONS && PASS !in TIE_BREAK
    ensures forall i, j :: 0 <= i < j < 7 ==> TIE_BREAK[i] != TIE_BREAK[j]
  {
    forall i, j | 0 <= i < j < 7 ensures TIE_BREAK[i] != TIE_BREAK[j] {
      assert Rank(TIE_BREAK[i]) == i && Rank(TIE_BREAK[j]) == j;
    }
  }

  // ---------------------------------------------------------------------
  // The roster

  datatype Player = Human(human: HumanPlayer) | Random(random: RandomPlayer) | Smart(smart: SmartPlayer)

  function Id(p: Player): int
  {
    match p
    case Human(h) => h.id
    case Random(r) => r.id
    case Smart(s) => s.id
  }

  function GoalOf(p: Player): Goal
  {
    match p
    case Human(h) => h.goal
    case Random(r) => r.goal
    case Smart(s) => s.goal
  }

  ghost predicate ColoursDistinct(s: seq<Goal>)
  {
    forall i, j :: 0 <= i < j < |s| ==> s[i].colour != s[j].colour
  }

  /** The position of the first occurrence of x in s. */
  function FirstIndex(s: seq<Goal>, x: Goal): (k: nat)
    requires x in s
    ensures k < |s| && s[k] == x && x !in s[..k]
  {
    if s[0] == x then 0
    else
      var k := FirstIndex(s[1..], x);
      assert s[..k + 1] == [s[0]] + s[1..][..k];
      k + 1
  }

  /** `list.remove`: s without the first occurrence of x, the rest in order. */
  function RemoveFirst(s: seq<Goal>, x: Goal): (r: seq<Goal>)
    ensures x in s ==> exists k :: 0 <= k < |s| && s[k] == x && x !in s[..k] && r == s[..k] + s[k + 1..]
    ensures x in s ==> multiset(r) == multiset(s) - multiset{x}
    ensures x !in s ==> r == s
  {
    if x in s then
      var k := FirstIndex(s, x);
      assert s == s[..k] + [x] + s[k + 1..];
      s[..k] + s[k + 1..]
    else s
  }

  /** Dropping the goal at k from goals of distinct colours leaves goals of
      distinct colours, none of them the colour of the goal dropped. */
  lemma DropDistinct(s: seq<Goal>, k: nat)
    requires ColoursDistinct(s) && k < |s|
    ensures ColoursDistinct(s[..k] + s[k + 1..])
    ensures forall y :: y in s[..k] + s[k + 1..] ==> y.colour != s[k].colour
  {
    var r := s[..k] + s[k + 1..];
    assert |r| == |s| - 1;
    assert forall i :: 0 <= i < k ==> r[i] == s[i];
    assert forall i :: k <= i < |r| ==> r[i] == s[i + 1];
    forall i, j | 0 <= i < j < |r| ensures r[i].colour != r[j].colour {
      var i', j' := if i < k then i else i + 1, if j < k then j else j + 1;
      assert r[i] == s[i'] && r[j] == s[j'];
    }
    forall y | y in r ensures y.colour != s[k].colour {
      var i :| 0 <= i < |r| && r[i] == y;
      var i' := if i < k then i else i + 1;
      assert y == s[i'] && i' != k;
    }
  }

  lemma RemoveFirstDistinct(s: seq<Goal>, x: Goal)
    requires ColoursDistinct(s) && x in s
    ensures ColoursDistinct(RemoveFirst(s, x))
    ensures forall y :: y in RemoveFirst(s, x) ==> y.colour != x.colour
  {
    DropDistinct(s, FirstIndex(s, x));
  }

  /** The roster so far: ids count up from 0, each player holds a goal dealt
      from goals, no two players share a colour, and the goals left are
      those not yet dealt. */
  ghost predicate Dealt(players: seq<Player>, left: seq<Goal>, goals: seq<Goal>)
  {
    && |players| + |left| == |goals|
    && ColoursDistinct(left)
    && (forall g :: g in left ==> g in goals)
    && (forall i :: 0 <= i < |players| ==> Id(players[i]) == i && GoalOf(players[i]) in goals)
    && (forall i, j :: 0 <= i < j < |players| ==> GoalOf(players[i]).colour != GoalOf(players[j]).colour)
    && (forall i, g :: 0 <= i < |players| && g in left ==> GoalOf(players[i]).colour != g.colour)
  }

  /** Deals goals[choice] to the next player and removes it from goals. */
  lemma DealStep(players: seq<Player>, left: seq<Goal>, goals: seq<Goal>, choice: int, p: Player)
    requires Dealt(players, left, goals) && 0 <= choice < |left|
    requires Id(p) == |players| && GoalOf(p) == left[choice]
    ensures Dealt(players + [p], RemoveFirst(left, left[choice]), goals)
  {
    RemoveFirstDistinct(left, left[choice]);
  }

  /** The random-choice indices are in range: choices[k] picks among the
      goals still undealt when k players have been created. */
  ghost predicate ChoicesFit(choices: seq<int>)
  {
    forall k :: 0 <= k < |choices| ==> 0 <= choices[k] < |choices| - k
  }

  /** The first loop of `create_players`: count human players, each dealt the
      chosen remaining goal. */
  method AddHumans(players0: seq<Player>, left0: seq<Goal>, ghost all: seq<Goal>, choices: seq<int>, count: nat)
    returns (players: seq<Player>, left: seq<Goal>)
    requires Dealt(players0, left0, all) && |all| == |choices| && ChoicesFit(choices)
    requires |players0| + count <= |choices|
    ensures Dealt(players, left, all)
    ensures |players| == |players0| + count && players[..|players0|] == players0
    ensures forall m :: |players0| <= m < |players| ==> players[m].Human?
  {
    players, left := players0, left0;
    for i := |players0| to |players0| + count
      invariant |players| == i && Dealt(players, left, all)
      invariant players[..|players0|] == players0
      invariant forall m :: |players0| <= m < |players| ==> players[m].Human?
    {
      var goal := left[choices[i]];
      var p := new HumanPlayer(i, goal);
      DealStep(players, left, all, choices[i], Human(p));
      left := RemoveFirst(left, goal);
      players := players + [Human(p)];
    }
  }

  /** The second loop of `create_players`: count random players. */
  method AddRandoms(players0: seq<Player>, left0: seq<Goal>, ghost all: seq<Goal>, choices: seq<int>, count: nat)
    returns (players: seq<Player>, left: seq<Goal>)
    requires Dealt(players0, left0, all) && |all| == |choices| && ChoicesFit(choices)
    requires |players0| + count <= |choices|
    ensures Dealt(players, left, all)
    ensures |players| == |players0| + count && players[..|players0|] == players0
    ensures forall m :: |players0| <= m < |players| ==> players[m].Random?
  {
    players, left := players0, left0;
    for j := |players0| to |players0| + count
      invariant |players| == j && Dealt(players, left, all)
      invariant players[..|players0|] == players0
      invariant forall m :: |players0| <= m < |players| ==> players[m].Random?
    {
      var goal := left[choices[j]];
      var p := new RandomPlayer(j, goal);
      DealStep(players, left, all, choices[j], Random(p));
      left := RemoveFirst(left, goal);
      players := players + [Random(p)];
    }
  }

  /** The third loop of `create_players`: one smart player per difficulty. */
  method AddSmarts(players0: seq<Player>, left0: seq<Goal>, ghost all: seq<Goal>, choices: seq<int>, difficulties: seq<int>)
    returns (players: seq<Player>, left: seq<Goal>)
    requires Dealt(players0, left0, all) && |all| == |choices| && ChoicesFit(choices)
    requires |players0| + |difficulties| <= |choices|
    ensures Dealt(players, left, all)
    ensures |players| == |players0| + |difficulties| && players[..|players0|] == players0
    ensures forall m :: |players0| <= m < |players| ==>
      players[m].Smart? && players[m].smart.difficulty == difficulties[m - |players0|]
  {
    players, left := players0, left0;
    var start := |players0|;
    for k := 0 to |difficulties|
      invariant |players| == start + k && Dealt(players, left, all)
      invariant players[..start] == players0
      invariant forall m :: start <= m < |players| ==>
        players[m].Smart? && players[m].smart.difficulty == difficulties[m - start]
    {
      var goal := left[choices[k + start]];
      var p := new SmartPlayer(k + start, goal, difficulties[k]);
      DealStep(players, left, all, choices[k + start], Smart(p));
      left := RemoveFirst(left, goal);
      players := players + [Smart(p)];
    }
  }

  /** `create_players`: the palette, draws and goalIndex feed the goal
      factory; choices[k] is the index of the k-th random choice among the
      goals not yet dealt. Humans come first, then random players, then
      smart players with the given difficulties, numbered from 0; each
      gets a different goal of the game's one kind. */
  method CreatePlayers(numHuman: nat, numRandom: nat, smartPlayers: seq<int>,
                       palette: seq<Colour>, draws: seq<int>, goalIndex: int, choices: seq<int>)
    returns (players: seq<Player>)
    requires numHuman + numRandom + |smartPlayers| <= |palette|
    requires forall k :: 0 <= k < |draws| ==> 0 <= draws[k] < |palette|
    requires |Dedup(Drawn(palette, draws))| >= numHuman + numRandom + |smartPlayers|
    requires 0 <= goalIndex <= 2
    requires |choices| == numHuman + numRandom + |smartPlayers| && ChoicesFit(choices)
    ensures |players| == numHuman + numRandom + |smartPlayers|
    ensures forall i :: 0 <= i < |players| ==> Id(players[i]) == i
    ensures forall i :: 0 <= i < |players| ==> (players[i].Human? <==> i < numHuman)
    ensures forall i :: 0 <= i < |players| ==> (players[i].Random? <==> numHuman <= i < numHuman + numRandom)
    ensures forall i :: 0 <= i < |players| ==> (players[i].Smart? <==> numHuman + numRandom <= i)
    ensures forall i :: numHuman + numRandom <= i < |players| && players[i].Smart? ==>
      players[i].smart.difficulty == smartPlayers[i - numHuman - numRandom]
    ensures forall i, j :: 0 <= i < j < |players| ==> GoalOf(players[i]).colour != GoalOf(players[j]).colour
    ensures forall i :: 0 <= i < |players| ==> GoalOf(players[i]).colour in palette
    ensures forall i :: 0 <= i < |players| ==> (GoalOf(players[i]).PerimeterGoal? <==> goalIndex == 0)
  {
    var total := numHuman + numRandom + |smartPlayers|;
    var goals := GenerateGoals(total, palette, draws, goalIndex);
    ghost var all := goals;
    var humans, randoms;
    humans, goals := AddHumans([], goals, all, choices, numHuman);
    randoms, goals := AddRandoms(humans, goals, all, choices, numRandom);
    players, goals := AddSmarts(randoms, goals, all, choices, smartPlayers);
    assert players[..numHuman] == humans by {
      assert players[..numHuman] == players[..|randoms|][..numHuman];
    }
    forall i | 0 <= i < |players|
      ensures GoalOf(players[i]).colour in palette
      ensures GoalOf(players[i]).PerimeterGoal? <==> goalIndex == 0
    {
      var m :| 0 <= m < |all| && all[m] == GoalOf(players[i]);
    }
  }
}
