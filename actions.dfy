/** The actions a player can take and the moves built from them. An action is
    a name with an optional direction; a move is an action aimed at a block. */
module Actions {
  import opened Blocks

  datatype ActionKind = Rotate | Swap | Smash | Paint | Combine | Pass

  type Action = (ActionKind, Option<int>)

  const ROTATE_CLOCKWISE: Action := (Rotate, Some(1))
  const ROTATE_COUNTER_CLOCKWISE: Action := (Rotate, Some(3))
  const SWAP_HORIZONTAL: Action := (Swap, Some(0))
  const SWAP_VERTICAL: Action := (Swap, Some(1))
  const SMASH: Action := (Smash, None)
  const PAINT: Action := (Paint, None)
  const COMBINE: Action := (Combine, None)
  const PASS: Action := (Pass, None)

  /** A move: the action's name, its direction, and the block it acts on. */
  type Move = (ActionKind, Option<int>, Block)
}
