/** Grid cells, headings and the fixed game settings shared by the snake, the food and the engine. */
module Pieces {

  /** One of the four cardinal headings of the snake. */
  datatype Direction = Up | Down | Left | Right

  /** A grid coordinate (not pixels). The source mutates these in place, but no piece is
      ever shared between two owners, so a value is an exact stand-in. */
  datatype GamePiece = GamePiece(x: int, y: int)

  const PieceWidth: int := 16
  const PieceHeight: int := 16
  /** Tick interval, in milliseconds, at the start of a game. */
  const InitialSpeed: int := 150
  /** Milliseconds taken off the tick interval per food eaten. */
  const SpeedIncrement: int := 5
  /** The shortest tick interval the game ever reaches. */
  const MinSpeed: int := 40

  /** The heading pointing the other way. */
  function Opposite(d: Direction): (r: Direction)
    ensures r != d
  {
    match d
    case Up => Down
    case Down => Up
    case Left => Right
    case Right => Left
  }

  function Abs(n: int): (a: nat)
  {
    if n < 0 then -n else n
  }

  /** Manhattan distance between two cells. */
  function Distance(a: GamePiece, b: GamePiece): (n: nat)
  {
    Abs(a.x - b.x) + Abs(a.y - b.y)
  }

  /** The cell one step from `c` in heading `d` (screen coordinates: Up decreases y). */
  function Step(c: GamePiece, d: Direction): (r: GamePiece)
    ensures Distance(c, r) == 1
    ensures d == Left || d == Right ==> r.y == c.y
    ensures d == Up || d == Down ==> r.x == c.x
  {
    match d
    case Left => GamePiece(c.x - 1, c.y)
    case Right => GamePiece(c.x + 1, c.y)
    case Up => GamePiece(c.x, c.y - 1)
    case Down => GamePiece(c.x, c.y + 1)
  }

  /** Reversing twice gives back the heading. */
  lemma OppositeInvolution(d: Direction)
    ensures Opposite(Opposite(d)) == d
  {
  }

  /** Stepping back the opposite way returns to the start, and distinct headings lead to
      distinct cells. */
  lemma StepInverse(c: GamePiece, d: Direction, e: Direction)
    ensures Step(Step(c, d), Opposite(d)) == c
    ensures Step(c, d) == Step(c, e) ==> d == e
  {
  }
}
