/** ArrowTranslator: which arrow sprite a tile of a hovered path shows.
    A tile is known here only by its grid2DLocation, the one thing the
    translation reads; a missing neighbour (null in the game) is None. */
module ArrowTranslator {
  import opened Common

  datatype ArrowDirection =
    | None | Up | Down | Left | Right
    | TopRight | BottomRight | TopLeft | BottomLeft
    | UpFinished | DownFinished | LeftFinished | RightFinished

  /** The integer value of each enumerator, which is also its index in a
      tile's list of arrow sprites. */
  function Ordinal(d: ArrowDirection): (n: nat)
    ensures n <= 12
    ensures n == 0 <==> d == ArrowDirection.None
  {
    match d
    case None => 0
    case Up => 1
    case Down => 2
    case Left => 3
    case Right => 4
    case TopRight => 5
    case BottomRight => 6
    case TopLeft => 7
    case BottomLeft => 8
    case UpFinished => 9
    case DownFinished => 10
    case LeftFinished => 11
    case RightFinished => 12
  }

  /** Distinct enumerators have distinct values, so the sprite index picks
      out the direction. */
  lemma OrdinalInjective(d: ArrowDirection, e: ArrowDirection)
    requires Ordinal(d) == Ordinal(e)
    ensures d == e
  {
  }

  /** The direction walked to reach the current tile; (0,0) without one. */
  function PastDirection(previous: Option<Vector2Int>, current: Vector2Int): (r: Vector2Int)
    ensures previous.Some? ==> Add(previous.value, r) == current
    ensures previous.None? ==> r == (0, 0)
  {
    if previous.Some? then Sub(current, previous.value) else (0, 0)
  }

  /** The direction walked to leave the current tile; (0,0) without one. */
  function FutureDirection(current: Vector2Int, future: Option<Vector2Int>): (r: Vector2Int)
    ensures future.Some? ==> Add(current, r) == future.value
    ensures future.None? ==> r == (0, 0)
  {
    if future.Some? then Sub(future.value, current) else (0, 0)
  }

  /** The direction the arrow is chosen by: the sum of the two steps when
      they differ, the step itself when the path runs straight. A turn or a
      reversal between two unit steps never reads as a straight step, and
      the result is (0,0) exactly when the steps cancel out. */
  function CombinedDirection(past: Vector2Int, future: Vector2Int): (r: Vector2Int)
    ensures past == future ==> r == past
    ensures IsUnitStep(past) && IsUnitStep(future) && past != future ==> !IsUnitStep(r)
    ensures r == (0, 0) <==> past.0 + future.0 == 0 && past.1 + future.1 == 0
  {
    if past != future then Add(past, future) else future
  }

  /** The arrow of the current tile of a path: the straight arrows only
      where the path goes on, the "finished" arrows only at its end, and no
      arrow on a path of one tile. */
  function TranslateDirection(previous: Option<Vector2Int>, current: Vector2Int, future: Option<Vector2Int>): (r: ArrowDirection)
    ensures r.Up? || r.Down? || r.Left? || r.Right? ==> future.Some?
    ensures r.UpFinished? || r.DownFinished? || r.LeftFinished? || r.RightFinished? ==> future.None?
    ensures previous.None? && future.None? ==> r == ArrowDirection.None
  {
    var isFinal := future.None?;
    var past := PastDirection(previous, current);
    var next := FutureDirection(current, future);
    var direction := CombinedDirection(past, next);
    if direction == (0, 1) && !isFinal then Up
    else if direction == (0, -1) && !isFinal then Down
    else if direction == (1, 0) && !isFinal then Right
    else if direction == (-1, 0) && !isFinal then Left
    else if direction == (1, 1) then
      (if past.1 < next.1 then BottomLeft else TopRight)
    else if direction == (-1, 1) then
      (if past.1 < next.1 then BottomRight else TopLeft)
    else if direction == (1, -1) then
      (if past.1 > next.1 then TopLeft else BottomRight)
    else if direction == (-1, -1) then
      (if past.1 > next.1 then TopRight else BottomLeft)
    else if direction == (0, 1) && isFinal then UpFinished
    else if direction == (0, -1) && isFinal then DownFinished
    else if direction == (1, 0) && isFinal then RightFinished
    else if direction == (-1, 0) && isFinal then LeftFinished
    else ArrowDirection.None
  }

  /** One orthogonal step of the grid. */
  predicate IsUnitStep(v: Vector2Int) {
    v == (0, 1) || v == (0, -1) || v == (1, 0) || v == (-1, 0)
  }

  /** The arrow drawn along a straight run in direction v. */
  function Cardinal(v: Vector2Int): ArrowDirection {
    if v == (0, 1) then Up
    else if v == (0, -1) then Down
    else if v == (1, 0) then Right
    else if v == (-1, 0) then Left
    else ArrowDirection.None
  }

  /** The arrow drawn at the end of a path entered in direction v. */
  function Finished(v: Vector2Int): ArrowDirection {
    if v == (0, 1) then UpFinished
    else if v == (0, -1) then DownFinished
    else if v == (1, 0) then RightFinished
    else if v == (-1, 0) then LeftFinished
    else ArrowDirection.None
  }

  /** The corner sprite named by a diagonal vector, reading x to the right
      and y downwards. */
  function Corner(v: Vector2Int): ArrowDirection {
    if v == (1, -1) then TopRight
    else if v == (1, 1) then BottomRight
    else if v == (-1, -1) then TopLeft
    else if v == (-1, 1) then BottomLeft
    else ArrowDirection.None
  }

  /** The first tile of a path (no previous tile) shows the straight arrow
      of the step leaving it. */
  lemma FirstTileArrow(current: Vector2Int, next: Vector2Int)
    requires IsUnitStep(Sub(next, current))
    ensures TranslateDirection(Option.None, current, Some(next)) == Cardinal(Sub(next, current))
  {
  }

  /** The last tile of a path (no next tile) shows the "finished" arrow of
      the step entering it: the call is final exactly when the next tile is
      missing. */
  lemma LastTileArrow(previous: Vector2Int, current: Vector2Int)
    requires IsUnitStep(Sub(current, previous))
    ensures TranslateDirection(Some(previous), current, Option.None) == Finished(Sub(current, previous))
  {
  }

  /** A tile inside a straight run shows the arrow of the run. */
  lemma StraightArrow(previous: Vector2Int, current: Vector2Int, next: Vector2Int)
    requires IsUnitStep(Sub(current, previous))
    requires Sub(next, current) == Sub(current, previous)
    ensures TranslateDirection(Some(previous), current, Some(next)) == Cardinal(Sub(next, current))
  {
  }

  /** At a turn, the four separately written diagonal branches follow one
      rule: the corner is named by the vector future - past, read with y
      pointing downwards as the sprites are named. */
  lemma TurnArrow(previous: Vector2Int, current: Vector2Int, next: Vector2Int)
    requires IsUnitStep(Sub(current, previous)) && IsUnitStep(Sub(next, current))
    requires (Sub(current, previous).0 == 0) != (Sub(next, current).0 == 0)
    ensures var d := Sub(Sub(next, current), Sub(current, previous));
            TranslateDirection(Some(previous), current, Some(next)) == Corner(d)
  {
  }

  /** Hence the arrow at a turn does not depend on the direction the path
      is walked in, and a straight arrow is reversed. */
  lemma {:induction false} ReversedPathArrow(previous: Vector2Int, current: Vector2Int, next: Vector2Int)
    requires IsUnitStep(Sub(current, previous)) && IsUnitStep(Sub(next, current))
    requires next != previous
    ensures var forward := TranslateDirection(Some(previous), current, Some(next));
            var backward := TranslateDirection(Some(next), current, Some(previous));
            (Sub(next, current) == Sub(current, previous) ==>
               forward == Cardinal(Sub(next, current)) && backward == Cardinal(Sub(previous, current))) &&
            (Sub(next, current) != Sub(current, previous) ==> forward == backward && forward != ArrowDirection.None)
  {
    if Sub(next, current) == Sub(current, previous) {
      StraightArrow(previous, current, next);
      StraightArrow(next, current, previous);
    } else {
      TurnArrow(previous, current, next);
      TurnArrow(next, current, previous);
    }
  }

  /** Whenever the combined direction is an axis vector, the arrow is the
      straight one for that vector, or its "finished" form when there is no
      next tile. */
  lemma AxisArrow(previous: Option<Vector2Int>, current: Vector2Int, future: Option<Vector2Int>)
    requires IsUnitStep(CombinedDirection(PastDirection(previous, current), FutureDirection(current, future)))
    ensures var d := CombinedDirection(PastDirection(previous, current), FutureDirection(current, future));
            TranslateDirection(previous, current, future) == if future.Some? then Cardinal(d) else Finished(d)
  {
  }

  /** Every combined direction other than the four axis vectors and the
      four diagonals shows no arrow. */
  lemma NoArrow(previous: Option<Vector2Int>, current: Vector2Int, future: Option<Vector2Int>)
    requires var d := CombinedDirection(PastDirection(previous, current), FutureDirection(current, future));
             !IsUnitStep(d) && !(Abs(d.0) == 1 && Abs(d.1) == 1)
    ensures TranslateDirection(previous, current, future) == ArrowDirection.None
  {
  }

  /** In particular a tile with neither neighbour, and a tile the path
      leaves the way it came, show no arrow. */
  lemma {:induction false} DegenerateNoArrow(previous: Option<Vector2Int>, current: Vector2Int, future: Option<Vector2Int>)
    requires (previous.None? && future.None?) || (previous.Some? && future == previous && previous.value != current)
    ensures TranslateDirection(previous, current, future) == ArrowDirection.None
  {
    NoArrow(previous, current, future);
  }
}
