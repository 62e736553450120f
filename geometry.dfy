/**
 * Colours, squares and the compass-direction table of the Othello board
 * (Lib/Board.cs: the Color enum, the Square struct, the _directions table and
 * the pure helpers _IsOnBoard, _IsOpponentColor and GetOpposingColor).
 */
module Geometry {

  /** What a square holds: nothing, a black disc or a white disc. */
  datatype Color = None | Black | White

  /** A board coordinate: row x and column y, each in 0..7 on the board. */
  datatype Square = Square(x: int, y: int) {
    /** The bit of this square in the 64-bit board masks. */
    function ToIndex(): int { Index(x, y) }
  }

  /** The square a default-constructed Square denotes: "no move available". */
  const NoMove: Square := Square(-1, -1)

  /** Row-major bit index of a coordinate. */
  function Index(x: int, y: int): int { x * 8 + y }

  /**
   * The direction table _directions: two entries (row step, column step) per
   * direction, in the order of the source. Direction d + 4 is the opposite of
   * direction d, which is what the stability test relies on.
   */
  const Directions: seq<int> := [0, 1, 1, 1, 1, 0, -1, 1, 0, -1, -1, -1, -1, 0, 1, -1]

  /** The row step of direction d: entry 2 * d of the table. */
  function DX(d: int): int
    requires 0 <= d < 8
  {
    if d == 0 then 0 else if d == 1 then 1 else if d == 2 then 1 else if d == 3 then -1
    else if d == 4 then 0 else if d == 5 then -1 else if d == 6 then -1 else 1
  }

  /** The column step of direction d: entry 2 * d + 1 of the table. */
  function DY(d: int): int
    requires 0 <= d < 8
  {
    if d == 0 then 1 else if d == 1 then 1 else if d == 2 then 0 else if d == 3 then 1
    else if d == 4 then -1 else if d == 5 then -1 else if d == 6 then 0 else -1
  }

  /** DX and DY read the table. */
  lemma DirectionEntries(d: int)
    requires 0 <= d < 8
    ensures |Directions| == 16
    ensures Directions[d * 2] == DX(d) && Directions[d * 2 + 1] == DY(d)
  {
  }

  /** A single king step: each coordinate moves by at most one, not both by zero. */
  predicate IsStep(dx: int, dy: int) {
    -1 <= dx <= 1 && -1 <= dy <= 1 && (dx != 0 || dy != 0)
  }

  /** Every table entry is a king step. */
  lemma DirectionTable(d: int)
    requires 0 <= d < 8
    ensures IsStep(DX(d), DY(d))
  {
  }

  /** Direction d + 4 reverses direction d: the four axes the stability test pairs up. */
  lemma OppositeDirections(d: int)
    requires 0 <= d < 4
    ensures DX(d + 4) == -DX(d) && DY(d + 4) == -DY(d)
  {
  }

  /**
   * The table position of a king step, and 8 for anything else (such as the
   * null step): the inverse of the table.
   */
  function DirectionOf(dx: int, dy: int): (d: int)
    ensures 0 <= d <= 8
    ensures d < 8 <==> IsStep(dx, dy)
    ensures d < 8 ==> DX(d) == dx && DY(d) == dy
  {
    if dx == 0 && dy == 1 then 0
    else if dx == 1 && dy == 1 then 1
    else if dx == 1 && dy == 0 then 2
    else if dx == -1 && dy == 1 then 3
    else if dx == 0 && dy == -1 then 4
    else if dx == -1 && dy == -1 then 5
    else if dx == -1 && dy == 0 then 6
    else if dx == 1 && dy == -1 then 7
    else 8
  }

  /** The table holds eight different directions: DirectionOf recovers each position. */
  lemma DirectionOfTable(d: int)
    requires 0 <= d < 8
    ensures DirectionOf(DX(d), DY(d)) == d
  {
  }

  /** _IsOnBoard(a): a coordinate lies in 0..7. */
  predicate InRange(a: int) {
    0 <= a < 8
  }

  /** _IsOnBoard(x, y). */
  predicate OnBoard(x: int, y: int) {
    InRange(x) && InRange(y)
  }

  /** Distinct on-board coordinates have distinct bit indices, all in 0..63. */
  lemma IndexInjective(x: int, y: int, x': int, y': int)
    requires OnBoard(x, y) && OnBoard(x', y')
    ensures 0 <= Index(x, y) < 64
    ensures Index(x, y) == Index(x', y') <==> x == x' && y == y'
  {
  }

  /** A closed form of Remaining, used only to show that Remaining is well defined. */
  function Span(x: int, y: int, dx: int, dy: int): nat {
    if !OnBoard(x, y) then 0
    else
      (if dx == 1 then 8 - x else if dx == -1 then x + 1 else 0) +
      (if dy == 1 then 8 - y else if dy == -1 then y + 1 else 0)
  }

  /**
   * The number of squares met from (x, y) on, stepping by (dx, dy), before
   * the walk leaves the board; it bounds every walk along a ray.
   */
  function Remaining(x: int, y: int, dx: int, dy: int): nat
    decreases Span(x, y, dx, dy)
  {
    if !OnBoard(x, y) || !IsStep(dx, dy) then 0
    else 1 + Remaining(x + dx, y + dy, dx, dy)
  }

  lemma RemainingDecreases(x: int, y: int, dx: int, dy: int)
    requires IsStep(dx, dy) && OnBoard(x, y)
    ensures Remaining(x + dx, y + dy, dx, dy) < Remaining(x, y, dx, dy)
  {
  }

  /** _IsOpponentColor(c, target): both hold discs, of different colours. */
  predicate IsOpponent(c: Color, target: Color) {
    c != None && target != None && c != target
  }

  /** GetOpposingColor: swaps Black and White and keeps None. */
  function Opposing(c: Color): (r: Color)
    ensures c == None <==> r == None
    ensures c != None ==> r != c && r != None
  {
    if c == None then c
    else if c == Black then White
    else Black
  }

  /** Opposing is its own inverse. */
  lemma OpposingInvolutive(c: Color)
    ensures Opposing(Opposing(c)) == c
  {
  }

  /** The two players' colours are each other's opponents. */
  lemma OpponentOfOpposing(c: Color, t: Color)
    requires c != None
    ensures IsOpponent(c, t) <==> t == Opposing(c)
  {
  }
}
