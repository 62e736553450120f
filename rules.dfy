/**
 * The rules of Othello on a grid of 64 colours, as Lib/Board.cs implements
 * them: which squares are legal moves (GetValidMoves), which discs a move
 * turns over (_GetFlips), what painting a list of squares does to the grid,
 * how many squares hold each colour, and when the game is over (IsGameOver).
 * Everything here is a pure specification; the Board class in boards.dfy is
 * proved to compute exactly these values.
 */
module Rules {
  import opened Geometry

  /**
   * The contents of the 64 squares, indexed row-major by Index(x, y); the
   * boards of this model always decode to 64 entries (Masks.Decode).
   */
  type Grid = seq<Color>

  /** The colour on square (x, y); a grid of any other length reads as empty. */
  function Cell(g: Grid, x: int, y: int): Color
    requires OnBoard(x, y)
  {
    if |g| == 64 then g[Index(x, y)] else None
  }

  /** The square whose bit index is i. */
  function SquareOf(i: int): Square {
    Square(i / 8, i % 8)
  }

  lemma SquareOfIndex(x: int, y: int)
    requires OnBoard(x, y)
    ensures SquareOf(Index(x, y)) == Square(x, y)
  {
  }

  lemma IndexOfSquare(i: int)
    requires 0 <= i < 64
    ensures OnBoard(SquareOf(i).x, SquareOf(i).y) && SquareOf(i).ToIndex() == i
  {
  }

  // ---------------------------------------------------------------------
  // Counting
  // ---------------------------------------------------------------------

  /** The number of entries of s equal to c. */
  function Count(s: seq<Color>, c: Color): nat {
    if s == [] then 0 else (if s[0] == c then 1 else 0) + Count(s[1..], c)
  }

  /** Overwriting one entry moves it from the count of its old colour to the count of the new one. */
  lemma {:induction false} CountUpdate(s: seq<Color>, i: int, v: Color, c: Color)
    requires 0 <= i < |s|
    ensures Count(s[i := v], c) ==
            Count(s, c) - (if s[i] == c then 1 else 0) + (if v == c then 1 else 0)
  {
    if i == 0 {
      assert s[i := v][1..] == s[1..];
    } else {
      assert s[i := v][1..] == s[1..][i - 1 := v];
      CountUpdate(s[1..], i - 1, v, c);
    }
  }

  /** Every entry has one of the three colours. */
  lemma {:induction false} CountPartition(s: seq<Color>)
    ensures Count(s, None) + Count(s, Black) + Count(s, White) == |s|
  {
    if s != [] {
      CountPartition(s[1..]);
    }
  }

  /** A grid is empty everywhere exactly when it has 64 empty squares. */
  lemma {:induction false} CountOfConstant(n: nat, c: Color, d: Color)
    ensures Count(seq(n, _ => c), d) == if c == d then n else 0
  {
    if n > 0 {
      assert seq(n, _ => c)[1..] == seq(n - 1, _ => c);
      CountOfConstant(n - 1, c, d);
    }
  }

  /** The number of empty squares: the quantity every move lowers. */
  function Empties(g: Grid): nat {
    Count(g, None)
  }

  // ---------------------------------------------------------------------
  // Legal moves (GetValidMoves)
  // ---------------------------------------------------------------------

  /**
   * The scan of GetValidMoves along (dx, dy) from (x, y): a disc of colour c
   * is reached before an empty square or the edge of the board.
   */
  function Brackets(g: Grid, x: int, y: int, dx: int, dy: int, c: Color): bool
    requires IsStep(dx, dy)
    decreases Remaining(x, y, dx, dy)
  {
    if !OnBoard(x, y) then false
    else if Cell(g, x, y) == c then true
    else if Cell(g, x, y) == None then false
    else Brackets(g, x + dx, y + dy, dx, dy, c)
  }

  /**
   * Direction d opens a capture from (x, y) for c: the neighbour in that
   * direction holds the other colour and the scan from the square after it
   * brackets.
   */
  predicate Opens(g: Grid, x: int, y: int, c: Color, d: int)
    requires 0 <= d < 8
  {
    DirectionTable(d);
    RayOpens(g, x + DX(d), y + DY(d), DX(d), DY(d), c)
  }

  /** The test of Opens for the neighbour (nx, ny) reached by the step (dx, dy). */
  predicate RayOpens(g: Grid, nx: int, ny: int, dx: int, dy: int, c: Color)
    requires IsStep(dx, dy)
  {
    OnBoard(nx, ny) && IsOpponent(c, Cell(g, nx, ny)) && Brackets(g, nx + dx, ny + dy, dx, dy, c)
  }

  /** One of the directions 0..n-1 opens a capture (the direction loop of GetValidMoves). */
  predicate OpensBelow(g: Grid, x: int, y: int, c: Color, n: int)
    requires 0 <= n <= 8
  {
    n > 0 && (OpensBelow(g, x, y, c, n - 1) || Opens(g, x, y, c, n - 1))
  }

  lemma {:induction false} OpensBelowSome(g: Grid, x: int, y: int, c: Color, n: int)
    requires 0 <= n <= 8
    ensures OpensBelow(g, x, y, c, n) <==> exists d :: 0 <= d < n && Opens(g, x, y, c, d)
  {
    if n > 0 {
      OpensBelowSome(g, x, y, c, n - 1);
    }
  }

  /** Once a direction below n opens a capture, one below any larger bound does. */
  lemma {:induction false} OpensBelowGrows(g: Grid, x: int, y: int, c: Color, n: int, m: int)
    requires 0 <= n <= m <= 8 && OpensBelow(g, x, y, c, n)
    ensures OpensBelow(g, x, y, c, m)
    decreases m
  {
    if n < m {
      OpensBelowGrows(g, x, y, c, n, m - 1);
    }
  }

  /** (x, y) is a legal move for c: the square is empty and some direction opens a capture. */
  predicate Legal(g: Grid, x: int, y: int, c: Color)
    requires OnBoard(x, y)
  {
    Cell(g, x, y) == None && OpensBelow(g, x, y, c, 8)
  }

  /** Legal spelled out: the square is empty and one of the eight table directions opens a capture. */
  lemma LegalSpec(g: Grid, x: int, y: int, c: Color)
    requires OnBoard(x, y)
    ensures Legal(g, x, y, c) <==> Cell(g, x, y) == None && exists d :: 0 <= d < 8 && Opens(g, x, y, c, d)
  {
    OpensBelowSome(g, x, y, c, 8);
  }

  predicate LegalAt(g: Grid, c: Color, i: int)
    requires 0 <= i < 64
  {
    IndexOfSquare(i);
    Legal(g, SquareOf(i).x, SquareOf(i).y, c)
  }

  /** The legal squares among indices 0..n-1, the highest index first (the list AddFirst builds). */
  function MovesBelow(g: Grid, c: Color, n: int): seq<Square>
    requires 0 <= n <= 64
  {
    if n == 0 then []
    else (if LegalAt(g, c, n - 1) then [SquareOf(n - 1)] else []) + MovesBelow(g, c, n - 1)
  }

  /** The list GetValidMoves(c) returns. */
  function ValidMoves(g: Grid, c: Color): seq<Square> {
    MovesBelow(g, c, 64)
  }

  /** The scan of GetValidMoves reaching square (x, y): it is put first exactly when it is legal. */
  lemma MovesBelowStep(g: Grid, c: Color, x: int, y: int)
    requires OnBoard(x, y)
    ensures 0 <= Index(x, y) < 64
    ensures MovesBelow(g, c, Index(x, y) + 1) ==
            (if Legal(g, x, y, c) then [Square(x, y)] else []) + MovesBelow(g, c, Index(x, y))
  {
    IndexInjective(x, y, 0, 0);
    SquareOfIndex(x, y);
  }

  /** A list of squares in strictly decreasing row-major order, hence without repetition. */
  predicate Descending(moves: seq<Square>) {
    forall a, b :: 0 <= a < b < |moves| ==> moves[a].ToIndex() > moves[b].ToIndex()
  }

  lemma {:induction false} MovesBelowSpec(g: Grid, c: Color, n: int)
    requires 0 <= n <= 64
    ensures forall m :: m in MovesBelow(g, c, n) <==>
                        OnBoard(m.x, m.y) && m.ToIndex() < n && Legal(g, m.x, m.y, c)
    ensures Descending(MovesBelow(g, c, n))
  {
    if n > 0 {
      MovesBelowSpec(g, c, n - 1);
      IndexOfSquare(n - 1);
      var rest := MovesBelow(g, c, n - 1);
      forall m: Square | OnBoard(m.x, m.y) && m.ToIndex() == n - 1
        ensures m == SquareOf(n - 1)
      {
        SquareOfIndex(m.x, m.y);
      }
      if LegalAt(g, c, n - 1) {
        var all := [SquareOf(n - 1)] + rest;
        forall a, b | 0 <= a < b < |all|
          ensures all[a].ToIndex() > all[b].ToIndex()
        {
          if a == 0 {
            assert all[b] in rest;
          }
        }
      }
    }
  }

  /**
   * GetValidMoves(c) holds (x, y) exactly when (x, y) is a legal move for c,
   * and lists every such square once, in decreasing row-major order.
   */
  lemma ValidMovesSpec(g: Grid, c: Color)
    ensures forall m :: m in ValidMoves(g, c) <==> OnBoard(m.x, m.y) && Legal(g, m.x, m.y, c)
    ensures Descending(ValidMoves(g, c))
  {
    MovesBelowSpec(g, c, 64);
  }

  /** No direction opens a capture for the colourless player. */
  lemma {:induction false} OpensBelowNone(g: Grid, x: int, y: int, n: int)
    requires 0 <= n <= 8
    ensures !OpensBelow(g, x, y, None, n)
  {
    if n > 0 {
      OpensBelowNone(g, x, y, n - 1);
    }
  }

  /** A colourless player has no legal move. */
  lemma {:induction false} NoMovesForNone(g: Grid, n: int)
    requires 0 <= n <= 64
    ensures MovesBelow(g, None, n) == []
  {
    if n > 0 {
      NoMovesForNone(g, n - 1);
      IndexOfSquare(n - 1);
      OpensBelowNone(g, SquareOf(n - 1).x, SquareOf(n - 1).y, 8);
      assert !LegalAt(g, None, n - 1);
    }
  }

  /** IsGameOver: neither colour has a legal move. */
  predicate GameOver(g: Grid) {
    ValidMoves(g, Black) == [] && ValidMoves(g, White) == []
  }

  /** The game is over exactly when no square is a legal move for either colour. */
  lemma GameOverSpec(g: Grid)
    ensures GameOver(g) <==>
            forall x, y :: OnBoard(x, y) ==> !Legal(g, x, y, Black) && !Legal(g, x, y, White)
  {
    ValidMovesSpec(g, Black);
    ValidMovesSpec(g, White);
    if GameOver(g) {
      forall x, y | OnBoard(x, y)
        ensures !Legal(g, x, y, Black) && !Legal(g, x, y, White)
      {
        assert Square(x, y) !in ValidMoves(g, Black);
        assert Square(x, y) !in ValidMoves(g, White);
      }
    } else if ValidMoves(g, Black) != [] {
      assert ValidMoves(g, Black)[0] in ValidMoves(g, Black);
    } else {
      assert ValidMoves(g, White)[0] in ValidMoves(g, White);
    }
  }

  // ---------------------------------------------------------------------
  // Captured discs (_GetFlips)
  // ---------------------------------------------------------------------

  /** What a walk along one ray finds: a run of discs closed by a c disc, or nothing. */
  datatype Run = Captured(squares: seq<Square>) | Escaped

  /**
   * The walk of _GetFlips from (x, y) along (dx, dy): other-colour discs are
   * collected until a disc that is not of the other colour closes the run; an
   * empty square or the edge ends it with nothing captured.
   */
  function Walk(g: Grid, x: int, y: int, dx: int, dy: int, c: Color): Run
    requires IsStep(dx, dy)
    decreases Remaining(x, y, dx, dy)
  {
    if !OnBoard(x, y) || Cell(g, x, y) == None then Escaped
    else if IsOpponent(Cell(g, x, y), c) then
      match Walk(g, x + dx, y + dy, dx, dy, c)
      case Captured(rest) => Captured([Square(x, y)] + rest)
      case Escaped => Escaped
    else Captured([])
  }

  /** The discs a walk along (dx, dy) from the neighbour (nx, ny) turns over. */
  function RayFlips(g: Grid, nx: int, ny: int, dx: int, dy: int, c: Color): seq<Square>
    requires IsStep(dx, dy)
  {
    var w := Walk(g, nx, ny, dx, dy, c);
    if w.Captured? then w.squares else []
  }

  /** The discs turned over in direction d by a move of c at (x, y). */
  function RunOf(g: Grid, x: int, y: int, c: Color, d: int): seq<Square>
    requires 0 <= d < 8
  {
    DirectionTable(d);
    RayFlips(g, x + DX(d), y + DY(d), DX(d), DY(d), c)
  }

  /** The runs of directions n-1 down to 0, in that order. */
  function FlipsUpTo(g: Grid, x: int, y: int, c: Color, n: int): seq<Square>
    requires 0 <= n <= 8
  {
    if n == 0 then [] else RunOf(g, x, y, c, n - 1) + FlipsUpTo(g, x, y, c, n - 1)
  }

  /** The list _GetFlips(x, y, c) returns. */
  function Flips(g: Grid, x: int, y: int, c: Color): seq<Square> {
    FlipsUpTo(g, x, y, c, 8)
  }

  /** -1, 0 or 1 according to the sign of a. */
  function Sign(a: int): int {
    if a > 0 then 1 else if a < 0 then -1 else 0
  }

  /** The table direction in which square s lies from (ox, oy), or 8 when it lies on no ray (the origin itself included). */
  function Heading(ox: int, oy: int, s: Square): int {
    DirectionOf(Sign(s.x - ox), Sign(s.y - oy))
  }

  predicate Distinct(s: seq<Square>) {
    forall a, b :: 0 <= a < b < |s| ==> s[a] != s[b]
  }

  /** The discs a walk captures lie on the board and hold the other colour. */
  lemma {:induction false} WalkColors(g: Grid, x: int, y: int, dx: int, dy: int, c: Color)
    requires IsStep(dx, dy)
    ensures Walk(g, x, y, dx, dy, c).Captured? ==>
              forall e :: e in Walk(g, x, y, dx, dy, c).squares ==>
                OnBoard(e.x, e.y) && c != None && Cell(g, e.x, e.y) == Opposing(c)
    decreases Remaining(x, y, dx, dy)
  {
    if OnBoard(x, y) && Cell(g, x, y) != None && IsOpponent(Cell(g, x, y), c) {
      RemainingDecreases(x, y, dx, dy);
      WalkColors(g, x + dx, y + dy, dx, dy, c);
      OpponentOfOpposing(c, Cell(g, x, y));
      var w := Walk(g, x + dx, y + dy, dx, dy, c);
      if w.Captured? {
        assert Walk(g, x, y, dx, dy, c).squares == [Square(x, y)] + w.squares;
      }
    }
  }

  /** The discs a walk captures keep the walk's direction as seen from the origin (ox, oy). */
  lemma {:induction false} WalkDirection(g: Grid, ox: int, oy: int, x: int, y: int, dx: int, dy: int, c: Color)
    requires IsStep(dx, dy)
    requires Sign(x - ox) == dx && Sign(y - oy) == dy
    ensures Walk(g, x, y, dx, dy, c).Captured? ==>
              forall e :: e in Walk(g, x, y, dx, dy, c).squares ==>
                Sign(e.x - ox) == dx && Sign(e.y - oy) == dy
    decreases Remaining(x, y, dx, dy)
  {
    if OnBoard(x, y) && Cell(g, x, y) != None && IsOpponent(Cell(g, x, y), c) {
      RemainingDecreases(x, y, dx, dy);
      WalkDirection(g, ox, oy, x + dx, y + dy, dx, dy, c);
    }
  }

  lemma DistinctCons(e: Square, s: seq<Square>)
    requires e !in s && Distinct(s)
    ensures Distinct([e] + s)
  {
    var all := [e] + s;
    forall a, b | 0 <= a < b < |all|
      ensures all[a] != all[b]
    {
      if a == 0 {
        assert all[b] in s;
      } else {
        assert all[a] == s[a - 1] && all[b] == s[b - 1];
      }
    }
  }

  /** Each captured disc lies no further from the edge, along the ray, than the walk's start. */
  lemma {:induction false} WalkBounded(g: Grid, x: int, y: int, dx: int, dy: int, c: Color)
    requires IsStep(dx, dy)
    ensures Walk(g, x, y, dx, dy, c).Captured? ==>
              forall e :: e in Walk(g, x, y, dx, dy, c).squares ==>
                Remaining(e.x, e.y, dx, dy) <= Remaining(x, y, dx, dy)
    decreases Remaining(x, y, dx, dy)
  {
    if OnBoard(x, y) && Cell(g, x, y) != None && IsOpponent(Cell(g, x, y), c) {
      RemainingDecreases(x, y, dx, dy);
      WalkBounded(g, x + dx, y + dy, dx, dy, c);
      var w := Walk(g, x + dx, y + dy, dx, dy, c);
      if w.Captured? {
        assert Walk(g, x, y, dx, dy, c).squares == [Square(x, y)] + w.squares;
      }
    }
  }

  /** Each captured disc is one step further along the ray than the one before, so none repeats. */
  lemma {:induction false} WalkDistinct(g: Grid, x: int, y: int, dx: int, dy: int, c: Color)
    requires IsStep(dx, dy)
    ensures Walk(g, x, y, dx, dy, c).Captured? ==> Distinct(Walk(g, x, y, dx, dy, c).squares)
    decreases Remaining(x, y, dx, dy)
  {
    if OnBoard(x, y) && Cell(g, x, y) != None && IsOpponent(Cell(g, x, y), c) {
      RemainingDecreases(x, y, dx, dy);
      WalkDistinct(g, x + dx, y + dy, dx, dy, c);
      WalkBounded(g, x + dx, y + dy, dx, dy, c);
      var w := Walk(g, x + dx, y + dy, dx, dy, c);
      if w.Captured? {
        assert Walk(g, x, y, dx, dy, c).squares == [Square(x, y)] + w.squares;
        assert Square(x, y) !in w.squares;
        DistinctCons(Square(x, y), w.squares);
      }
    }
  }

  /** The discs turned over along (dx, dy) from (x, y) are distinct discs of the other colour on that ray. */
  lemma RayFacts(g: Grid, x: int, y: int, dx: int, dy: int, c: Color)
    requires IsStep(dx, dy)
    ensures Distinct(RayFlips(g, x + dx, y + dy, dx, dy, c))
    ensures forall e :: e in RayFlips(g, x + dx, y + dy, dx, dy, c) ==>
              OnBoard(e.x, e.y) && c != None && Cell(g, e.x, e.y) == Opposing(c)
    ensures forall e :: e in RayFlips(g, x + dx, y + dy, dx, dy, c) ==>
              Sign(e.x - x) == dx && Sign(e.y - y) == dy
  {
    var nx, ny := x + dx, y + dy;
    assert Sign(nx - x) == dx && Sign(ny - y) == dy;
    WalkColors(g, nx, ny, dx, dy, c);
    WalkDirection(g, x, y, nx, ny, dx, dy, c);
    WalkDistinct(g, nx, ny, dx, dy, c);
  }

  /** The discs turned over in one direction, and in all of them: on the board, of the other colour, in the direction they were found. */
  predicate FlipFacts(g: Grid, x: int, y: int, c: Color, s: seq<Square>, n: int) {
    Distinct(s) &&
    forall e :: e in s ==>
      OnBoard(e.x, e.y) && c != None && Cell(g, e.x, e.y) == Opposing(c) && Heading(x, y, e) < n
  }

  /** Every disc of RunOf(d) lies in direction d, on the board, in the other colour; none repeats. */
  lemma RunOfFacts(g: Grid, x: int, y: int, c: Color, d: int)
    requires 0 <= d < 8
    ensures Distinct(RunOf(g, x, y, c, d))
    ensures forall e :: e in RunOf(g, x, y, c, d) ==>
              OnBoard(e.x, e.y) && c != None && Cell(g, e.x, e.y) == Opposing(c) && Heading(x, y, e) == d
  {
    DirectionTable(d);
    DirectionOfTable(d);
    RayFacts(g, x, y, DX(d), DY(d), c);
  }

  lemma DistinctAppend(s: seq<Square>, t: seq<Square>)
    requires Distinct(s) && Distinct(t)
    requires forall e :: e in s ==> e !in t
    ensures Distinct(s + t)
  {
    var all := s + t;
    forall a, b | 0 <= a < b < |all|
      ensures all[a] != all[b]
    {
      if a < |s| && b >= |s| {
        assert all[a] in s && all[b] in t;
      } else if b < |s| {
        assert all[a] == s[a] && all[b] == s[b];
      } else {
        assert all[a] == t[a - |s|] && all[b] == t[b - |s|];
      }
    }
  }

  lemma {:induction false} FlipsUpToFacts(g: Grid, x: int, y: int, c: Color, n: int)
    requires 0 <= n <= 8
    ensures FlipFacts(g, x, y, c, FlipsUpTo(g, x, y, c, n), n)
  {
    if n > 0 {
      FlipsUpToFacts(g, x, y, c, n - 1);
      RunOfFacts(g, x, y, c, n - 1);
      var run, rest := RunOf(g, x, y, c, n - 1), FlipsUpTo(g, x, y, c, n - 1);
      DistinctAppend(run, rest);
      assert FlipsUpTo(g, x, y, c, n) == run + rest;
    }
  }

  /**
   * _GetFlips returns squares on the board, each holding the other colour
   * (so none when c is None), none of them the origin and none twice.
   */
  lemma FlipsFacts(g: Grid, x: int, y: int, c: Color)
    ensures Distinct(Flips(g, x, y, c))
    ensures forall e :: e in Flips(g, x, y, c) ==>
              OnBoard(e.x, e.y) && c != None && Cell(g, e.x, e.y) == Opposing(c) && e != Square(x, y)
  {
    FlipsUpToFacts(g, x, y, c, 8);
    assert Heading(x, y, Square(x, y)) == 8;
  }

  /** The square i steps along (dx, dy) from (x, y). */
  function Along(x: int, y: int, dx: int, dy: int, i: int): Square {
    Square(x + i * dx, y + i * dy)
  }

  /** Square s is on the board and holds colour col. */
  predicate HoldsAt(g: Grid, s: Square, col: Color) {
    OnBoard(s.x, s.y) && Cell(g, s.x, s.y) == col
  }

  /**
   * The j-th square along (dx, dy) from (x, y) holds c, and every square
   * strictly between holds the other colour: a c disc closes the ray at j.
   */
  predicate Closes(g: Grid, x: int, y: int, dx: int, dy: int, c: Color, j: int) {
    j >= 1 && HoldsAt(g, Along(x, y, dx, dy, j), c) &&
    forall i :: 1 <= i < j ==> HoldsAt(g, Along(x, y, dx, dy, i), Opposing(c))
  }

  /** Square e lies in direction d from (x, y), strictly before a c disc that closes the ray. */
  ghost predicate Flanked(g: Grid, x: int, y: int, c: Color, d: int, e: Square)
    requires 0 <= d < 8
  {
    exists k, j :: 1 <= k < j && e == Along(x, y, DX(d), DY(d), k) && Closes(g, x, y, DX(d), DY(d), c, j)
  }

  /** A square that does not hold the other colour cuts every later closing disc off. */
  lemma NoCloseBeyond(g: Grid, x: int, y: int, dx: int, dy: int, c: Color, m: int)
    requires m >= 1 && !HoldsAt(g, Along(x, y, dx, dy, m), Opposing(c))
    ensures forall j :: m < j ==> !Closes(g, x, y, dx, dy, c, j)
  {
  }

  /**
   * The walk from the m-th square of a ray whose first m - 1 squares hold the
   * other colour captures exactly when a c disc closes the ray at some j >= m.
   */
  lemma {:induction false} WalkCloses(g: Grid, x: int, y: int, dx: int, dy: int, c: Color, m: int)
    requires IsStep(dx, dy) && c != None && m >= 1
    requires forall i :: 1 <= i < m ==> HoldsAt(g, Along(x, y, dx, dy, i), Opposing(c))
    ensures Walk(g, Along(x, y, dx, dy, m).x, Along(x, y, dx, dy, m).y, dx, dy, c).Captured? <==>
            exists j :: m <= j && Closes(g, x, y, dx, dy, c, j)
    decreases Remaining(Along(x, y, dx, dy, m).x, Along(x, y, dx, dy, m).y, dx, dy)
  {
    var s := Along(x, y, dx, dy, m);
    if !OnBoard(s.x, s.y) || Cell(g, s.x, s.y) == None {
      assert !HoldsAt(g, s, c) && !HoldsAt(g, s, Opposing(c));
      NoCloseBeyond(g, x, y, dx, dy, c, m);
    } else if IsOpponent(Cell(g, s.x, s.y), c) {
      OpponentOfOpposing(c, Cell(g, s.x, s.y));
      assert HoldsAt(g, s, Opposing(c)) && !HoldsAt(g, s, c);
      assert Along(x, y, dx, dy, m + 1) == Square(s.x + dx, s.y + dy);
      RemainingDecreases(s.x, s.y, dx, dy);
      WalkCloses(g, x, y, dx, dy, c, m + 1);
      assert !Closes(g, x, y, dx, dy, c, m);
    } else {
      OpponentOfOpposing(c, Cell(g, s.x, s.y));
      assert HoldsAt(g, s, c);
      assert Closes(g, x, y, dx, dy, c, m);
    }
  }

  /**
   * The same walk, when it captures, captures exactly the squares m .. j - 1
   * before the disc that closes the ray at j.
   */
  lemma {:induction false} WalkSpan(g: Grid, x: int, y: int, dx: int, dy: int, c: Color, m: int, e: Square)
    requires IsStep(dx, dy) && c != None && m >= 1
    requires forall i :: 1 <= i < m ==> HoldsAt(g, Along(x, y, dx, dy, i), Opposing(c))
    ensures var w := Walk(g, Along(x, y, dx, dy, m).x, Along(x, y, dx, dy, m).y, dx, dy, c);
      (w.Captured? && e in w.squares) <==>
      exists k, j :: m <= k < j && e == Along(x, y, dx, dy, k) && Closes(g, x, y, dx, dy, c, j)
    decreases Remaining(Along(x, y, dx, dy, m).x, Along(x, y, dx, dy, m).y, dx, dy)
  {
    var s := Along(x, y, dx, dy, m);
    if !OnBoard(s.x, s.y) || Cell(g, s.x, s.y) == None {
      assert !HoldsAt(g, s, Opposing(c));
      NoCloseBeyond(g, x, y, dx, dy, c, m);
    } else if IsOpponent(Cell(g, s.x, s.y), c) {
      OpponentOfOpposing(c, Cell(g, s.x, s.y));
      var t := Along(x, y, dx, dy, m + 1);
      assert t == Square(s.x + dx, s.y + dy);
      RemainingDecreases(s.x, s.y, dx, dy);
      WalkSpan(g, x, y, dx, dy, c, m + 1, e);
      WalkCloses(g, x, y, dx, dy, c, m + 1);
      var rest := Walk(g, t.x, t.y, dx, dy, c);
      assert Walk(g, s.x, s.y, dx, dy, c) == if rest.Captured? then Captured([s] + rest.squares) else Escaped;
      SpanCons(g, x, y, dx, dy, c, m, e, rest);
    } else {
      OpponentOfOpposing(c, Cell(g, s.x, s.y));
      assert !HoldsAt(g, s, Opposing(c));
      NoCloseBeyond(g, x, y, dx, dy, c, m);
    }
  }

  /** The step of WalkSpan over an other-colour square m: the run from m is m followed by the run from m + 1. */
  lemma SpanCons(g: Grid, x: int, y: int, dx: int, dy: int, c: Color, m: int, e: Square, rest: Run)
    requires c != None && m >= 1 && HoldsAt(g, Along(x, y, dx, dy, m), Opposing(c))
    requires rest.Captured? <==> exists j :: m + 1 <= j && Closes(g, x, y, dx, dy, c, j)
    requires (rest.Captured? && e in rest.squares) <==>
             exists k, j :: m + 1 <= k < j && e == Along(x, y, dx, dy, k) && Closes(g, x, y, dx, dy, c, j)
    ensures var w := if rest.Captured? then Captured([Along(x, y, dx, dy, m)] + rest.squares) else Escaped;
      (w.Captured? && e in w.squares) <==>
      exists k, j :: m <= k < j && e == Along(x, y, dx, dy, k) && Closes(g, x, y, dx, dy, c, j)
  {
    var s := Along(x, y, dx, dy, m);
    if rest.Captured? && e == s {
      var j :| m + 1 <= j && Closes(g, x, y, dx, dy, c, j);
      assert m <= m < j && e == Along(x, y, dx, dy, m);
    }
  }

  /** For a colour, direction d turns over exactly the squares flanked in direction d. */
  lemma RunOfExact(g: Grid, x: int, y: int, c: Color, d: int, e: Square)
    requires 0 <= d < 8 && c != None
    ensures e in RunOf(g, x, y, c, d) <==> Flanked(g, x, y, c, d, e)
  {
    DirectionTable(d);
    assert Along(x, y, DX(d), DY(d), 1) == Square(x + DX(d), y + DY(d));
    WalkCloses(g, x, y, DX(d), DY(d), c, 1);
    WalkSpan(g, x, y, DX(d), DY(d), c, 1, e);
  }

  lemma {:induction false} FlipsUpToExact(g: Grid, x: int, y: int, c: Color, n: int, e: Square)
    requires 0 <= n <= 8 && c != None
    ensures e in FlipsUpTo(g, x, y, c, n) <==> exists d :: 0 <= d < n && Flanked(g, x, y, c, d, e)
  {
    if n > 0 {
      FlipsUpToExact(g, x, y, c, n - 1, e);
      RunOfExact(g, x, y, c, n - 1, e);
      assert FlipsUpTo(g, x, y, c, n) == RunOf(g, x, y, c, n - 1) + FlipsUpTo(g, x, y, c, n - 1);
    }
  }

  /**
   * _GetFlips returns exactly the flanked squares: e is turned over by a move
   * of c at (x, y) if and only if c is a colour and, in some direction, e
   * lies before a c disc with only the other colour from the neighbour up
   * to that disc.
   */
  lemma FlipsExact(g: Grid, x: int, y: int, c: Color, e: Square)
    ensures e in Flips(g, x, y, c) <==> c != None && exists d :: 0 <= d < 8 && Flanked(g, x, y, c, d, e)
  {
    if c == None {
      FlipsFacts(g, x, y, c);
    } else {
      FlipsUpToExact(g, x, y, c, 8, e);
    }
  }

  /** For a colour, a walk captures at least one disc exactly when its first disc is the other colour and the scan after it brackets. */
  lemma {:induction false} WalkBrackets(g: Grid, x: int, y: int, dx: int, dy: int, c: Color)
    requires IsStep(dx, dy) && c != None
    ensures Walk(g, x, y, dx, dy, c).Captured? <==> Brackets(g, x, y, dx, dy, c)
    decreases Remaining(x, y, dx, dy)
  {
    if OnBoard(x, y) && Cell(g, x, y) != None && Cell(g, x, y) != c {
      RemainingDecreases(x, y, dx, dy);
      WalkBrackets(g, x + dx, y + dy, dx, dy, c);
    }
  }

  /** Along one step, a move turns discs over exactly when the scan of GetValidMoves opens a capture. */
  lemma RayOpensFlips(g: Grid, nx: int, ny: int, dx: int, dy: int, c: Color)
    requires IsStep(dx, dy)
    ensures |RayFlips(g, nx, ny, dx, dy, c)| > 0 <==> RayOpens(g, nx, ny, dx, dy, c)
  {
    if OnBoard(nx, ny) && Cell(g, nx, ny) != None && IsOpponent(Cell(g, nx, ny), c) {
      WalkBrackets(g, nx + dx, ny + dy, dx, dy, c);
    }
  }

  lemma RunOfOpens(g: Grid, x: int, y: int, c: Color, d: int)
    requires 0 <= d < 8
    ensures |RunOf(g, x, y, c, d)| > 0 <==> Opens(g, x, y, c, d)
  {
    DirectionTable(d);
    RayOpensFlips(g, x + DX(d), y + DY(d), DX(d), DY(d), c);
  }

  lemma {:induction false} FlipsUpToOpens(g: Grid, x: int, y: int, c: Color, n: int)
    requires 0 <= n <= 8
    ensures |FlipsUpTo(g, x, y, c, n)| > 0 <==> OpensBelow(g, x, y, c, n)
  {
    if n > 0 {
      FlipsUpToOpens(g, x, y, c, n - 1);
      RunOfOpens(g, x, y, c, n - 1);
    }
  }

  /**
   * The two ray casts of Board.cs agree: an empty square is a legal move
   * (GetValidMoves) exactly when a move there turns at least one disc over
   * (_GetFlips).
   */
  lemma LegalIffFlips(g: Grid, x: int, y: int, c: Color)
    requires OnBoard(x, y)
    ensures Legal(g, x, y, c) <==> Cell(g, x, y) == None && |Flips(g, x, y, c)| > 0
  {
    FlipsUpToOpens(g, x, y, c, 8);
  }

  // ---------------------------------------------------------------------
  // Painting squares
  // ---------------------------------------------------------------------

  predicate AllOnBoard(squares: seq<Square>) {
    forall s :: s in squares ==> OnBoard(s.x, s.y)
  }

  /** Some square of the list has index i. */
  predicate Covers(squares: seq<Square>, i: int) {
    exists s :: s in squares && s.ToIndex() == i
  }

  /** The grid after writing c into each listed square in turn. */
  function Paint(g: Grid, squares: seq<Square>, c: Color): (r: Grid)
    requires |g| == 64 && AllOnBoard(squares)
    ensures |r| == 64
    decreases |squares|
  {
    if squares == [] then g
    else
      IndexInjective(squares[0].x, squares[0].y, 0, 0);
      Paint(g[squares[0].ToIndex() := c], squares[1..], c)
  }

  /** Painting recolours exactly the listed squares. */
  lemma {:induction false} PaintSpec(g: Grid, squares: seq<Square>, c: Color)
    requires |g| == 64 && AllOnBoard(squares)
    ensures forall i :: 0 <= i < 64 ==>
              Paint(g, squares, c)[i] == if Covers(squares, i) then c else g[i]
    decreases |squares|
  {
    if squares != [] {
      var s := squares[0];
      IndexInjective(s.x, s.y, 0, 0);
      var g' := g[s.ToIndex() := c];
      PaintSpec(g', squares[1..], c);
      forall i | 0 <= i < 64
        ensures Paint(g, squares, c)[i] == if Covers(squares, i) then c else g[i]
      {
        if Covers(squares[1..], i) {
          var t :| t in squares[1..] && t.ToIndex() == i;
          assert t in squares;
        }
      }
    }
  }

  /**
   * Painting distinct squares that all hold colour `from` with colour `to`
   * moves exactly that many squares from one count to the other.
   */
  lemma {:induction false} PaintCounts(g: Grid, squares: seq<Square>, from: Color, to: Color)
    requires |g| == 64 && AllOnBoard(squares) && Distinct(squares) && from != to
    requires forall s :: s in squares ==> Cell(g, s.x, s.y) == from
    ensures Count(Paint(g, squares, to), to) == Count(g, to) + |squares|
    ensures Count(Paint(g, squares, to), from) == Count(g, from) - |squares|
    ensures forall d :: d != from && d != to ==> Count(Paint(g, squares, to), d) == Count(g, d)
    decreases |squares|
  {
    if squares != [] {
      var s := squares[0];
      IndexInjective(s.x, s.y, 0, 0);
      var g' := g[s.ToIndex() := to];
      forall t | t in squares[1..]
        ensures Cell(g', t.x, t.y) == from
      {
        assert t in squares;
        assert t != s by {
          assert squares[0] == s;
        }
        IndexInjective(s.x, s.y, t.x, t.y);
      }
      assert Distinct(squares[1..]) by {
        forall a, b | 0 <= a < b < |squares| - 1
          ensures squares[1..][a] != squares[1..][b]
        {
          assert squares[a + 1] != squares[b + 1];
        }
      }
      PaintCounts(g', squares[1..], from, to);
      CountUpdate(g, s.ToIndex(), to, to);
      CountUpdate(g, s.ToIndex(), to, from);
      forall d | d != from && d != to
        ensures Count(Paint(g, squares, to), d) == Count(g, d)
      {
        CountUpdate(g, s.ToIndex(), to, d);
      }
    }
  }
}
