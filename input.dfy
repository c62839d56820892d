/** The keyboard and swipe handlers: each input maps to at most one of the
    four navigation moves. Touch coordinates are taken as integers. */
module Input {
  import opened Wrappers

  datatype Move = PrevRow | NextRow | PrevCol | NextCol

  /** The move that goes back the way `m` came. */
  function Inverse(m: Move): (r: Move)
    ensures r != m
  {
    match m
    case PrevRow => NextRow
    case NextRow => PrevRow
    case PrevCol => NextCol
    case NextCol => PrevCol
  }

  /** The swipe distance, in screen units, a gesture must exceed. */
  const Threshold := 50

  function Abs(x: int): nat { if x < 0 then -x else x }

  /** The `keydown` switch: the arrow keys, nothing else. */
  function KeyMove(key: string): (r: Option<Move>)
    ensures r == Some(PrevCol) <==> key == "ArrowLeft"
    ensures r == Some(NextCol) <==> key == "ArrowRight"
    ensures r == Some(PrevRow) <==> key == "ArrowUp"
    ensures r == Some(NextRow) <==> key == "ArrowDown"
  {
    if key == "ArrowLeft" then Some(PrevCol)
    else if key == "ArrowRight" then Some(NextCol)
    else if key == "ArrowUp" then Some(PrevRow)
    else if key == "ArrowDown" then Some(NextRow)
    else None
  }

  /** The `touchend` handler for a movement of `(dx, dy)`: the dominant axis
      decides (ties go to the vertical axis), and a move is made only when
      that axis moved more than the threshold. Swiping right goes to the
      previous column, swiping down to the previous row. */
  function SwipeMove(dx: int, dy: int): (r: Option<Move>)
  {
    if Abs(dx) > Abs(dy) then
      if dx > Threshold then Some(PrevCol)
      else if dx < -Threshold then Some(NextCol)
      else None
    else
      if dy > Threshold then Some(PrevRow)
      else if dy < -Threshold then Some(NextRow)
      else None
  }

  /** Each move happens for exactly the gestures described here. */
  lemma SwipeCases(dx: int, dy: int)
    ensures SwipeMove(dx, dy) == Some(PrevCol) <==> Abs(dx) > Abs(dy) && dx > Threshold
    ensures SwipeMove(dx, dy) == Some(NextCol) <==> Abs(dx) > Abs(dy) && dx < -Threshold
    ensures SwipeMove(dx, dy) == Some(PrevRow) <==> Abs(dx) <= Abs(dy) && dy > Threshold
    ensures SwipeMove(dx, dy) == Some(NextRow) <==> Abs(dx) <= Abs(dy) && dy < -Threshold
  {
  }

  /** A gesture that stays within the threshold on both axes does nothing,
      and a column move is always a mostly horizontal gesture. */
  lemma SwipeDeadZone(dx: int, dy: int)
    ensures Abs(dx) <= Threshold && Abs(dy) <= Threshold ==> SwipeMove(dx, dy) == None
    ensures SwipeMove(dx, dy) in {Some(PrevCol), Some(NextCol)} ==> Abs(dx) > Threshold && Abs(dx) > Abs(dy)
    ensures SwipeMove(dx, dy) in {Some(PrevRow), Some(NextRow)} ==> Abs(dy) > Threshold && Abs(dy) >= Abs(dx)
  {
  }

  /** The same gesture in the opposite direction makes the inverse move. */
  lemma SwipeReversed(dx: int, dy: int)
    ensures SwipeMove(dx, dy).None? <==> SwipeMove(-dx, -dy).None?
    ensures SwipeMove(dx, dy).Some? ==> SwipeMove(-dx, -dy) == Some(Inverse(SwipeMove(dx, dy).value))
  {
  }

  /** Left and Right, Up and Down, are inverse keys. */
  lemma KeysInverse()
    ensures KeyMove("ArrowRight") == Some(Inverse(KeyMove("ArrowLeft").value))
    ensures KeyMove("ArrowDown") == Some(Inverse(KeyMove("ArrowUp").value))
  {
  }
}
