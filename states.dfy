/**
 * The fields of a Board (Lib/Board.cs) as one value, and the pure meaning of
 * the operations that change them: _SetColor, PlayMove, the constructor and
 * _CalculateStability. The Board class in boards.dfy is proved to move from
 * state to state exactly as these functions say; the lemmas here state what
 * the transitions do to the grid, the counters and the dirty flag.
 */
module States {
  import opened Geometry
  import opened Masks
  import opened Rules
  import opened Stability

  /** The eight fields of a Board: three masks, the dirty flag and four counters. */
  datatype BoardState = BoardState(
    occupied: Bits, owner: Bits, stable: Bits, dirty: bool,
    bTotal: int, bStable: int, wTotal: int, wStable: int)
  {
    /** The colours the masks encode. */
    function Cells(): Grid {
      Decode(occupied, owner)
    }

    /** _GetColor(x, y). */
    function ColorAt(x: int, y: int): (c: Color)
      requires OnBoard(x, y)
      ensures c == Cell(Cells(), x, y)
    {
      IndexInjective(x, y, 0, 0);
      ColorOf(occupied, owner, Index(x, y))
    }
  }

  /**
   * The counters agree with the grid: each total is the number of discs of
   * its colour plus the 2 the constructor starts from, and the masks only
   * use bits 0..63.
   */
  predicate Consistent(s: BoardState) {
    WellFormed(s.occupied) && WellFormed(s.owner) && WellFormed(s.stable) &&
    s.bTotal == Count(s.Cells(), Black) + 2 &&
    s.wTotal == Count(s.Cells(), White) + 2
  }

  // ---------------------------------------------------------------------
  // _SetColor
  // ---------------------------------------------------------------------

  /** _SetColor(x, y, c), case by case as the source writes it. */
  function SetColor(s: BoardState, x: int, y: int, c: Color): BoardState
    requires OnBoard(x, y)
  {
    var prev := s.ColorAt(x, y);
    var i := Index(x, y);
    if c == None then
      s.(bTotal := if prev == Black then s.bTotal - 1 else s.bTotal,
         wTotal := if prev == White then s.wTotal - 1 else s.wTotal,
         occupied := s.occupied - {i},
         dirty := true)
    else
      var placed := s.(occupied := s.occupied + {i},
                       owner := if c == Black then s.owner - {i} else s.owner + {i});
      if prev == None then
        placed.(bTotal := if c == Black then s.bTotal + 1 else s.bTotal,
                wTotal := if c == White then s.wTotal + 1 else s.wTotal)
      else if c != prev then
        placed.(bTotal := if c == Black then s.bTotal + 1 else s.bTotal - 1,
                wTotal := if c == White then s.wTotal + 1 else s.wTotal - 1,
                dirty := true)
      else placed
  }

  /** _SetColor writes c into square (x, y) and leaves every other square alone. */
  lemma SetColorCells(s: BoardState, x: int, y: int, c: Color)
    requires OnBoard(x, y)
    ensures SetColor(s, x, y, c).Cells() == s.Cells()[Index(x, y) := c]
  {
    IndexInjective(x, y, 0, 0);
    var i := Index(x, y);
    if c == None {
      DecodeClear(s.occupied, s.owner, i);
    } else if c == Black {
      DecodeSetBlack(s.occupied, s.owner, i);
    } else {
      DecodeSetWhite(s.occupied, s.owner, i);
    }
  }

  /** Each total loses one if the old colour was its own and gains one if the new colour is. */
  lemma SetColorTotals(s: BoardState, x: int, y: int, c: Color)
    requires OnBoard(x, y)
    ensures SetColor(s, x, y, c).bTotal ==
            s.bTotal - (if s.ColorAt(x, y) == Black then 1 else 0) + (if c == Black then 1 else 0)
    ensures SetColor(s, x, y, c).wTotal ==
            s.wTotal - (if s.ColorAt(x, y) == White then 1 else 0) + (if c == White then 1 else 0)
  {
  }

  /**
   * The dirty flag is raised when a square is cleared or a disc changes
   * colour, and not when a disc is placed on an empty square; it is never
   * lowered. The stable mask is not touched.
   */
  lemma SetColorDirty(s: BoardState, x: int, y: int, c: Color)
    requires OnBoard(x, y)
    ensures SetColor(s, x, y, c).dirty ==
            (s.dirty || c == None || (s.ColorAt(x, y) != None && s.ColorAt(x, y) != c))
    ensures SetColor(s, x, y, c).stable == s.stable
    ensures SetColor(s, x, y, c).bStable == s.bStable && SetColor(s, x, y, c).wStable == s.wStable
  {
  }

  /** _SetColor keeps the counters in step with the grid. */
  lemma SetColorConsistent(s: BoardState, x: int, y: int, c: Color)
    requires OnBoard(x, y) && Consistent(s)
    ensures Consistent(SetColor(s, x, y, c))
  {
    IndexInjective(x, y, 0, 0);
    SetColorCells(s, x, y, c);
    SetColorTotals(s, x, y, c);
    CountUpdate(s.Cells(), Index(x, y), c, Black);
    CountUpdate(s.Cells(), Index(x, y), c, White);
  }

  // ---------------------------------------------------------------------
  // PlayMove
  // ---------------------------------------------------------------------

  /** The foreach loop of PlayMove: _SetColor on each listed square in turn. */
  function SetColors(s: BoardState, squares: seq<Square>, c: Color): BoardState
    requires AllOnBoard(squares)
    decreases |squares|
  {
    if squares == [] then s
    else SetColors(SetColor(s, squares[0].x, squares[0].y, c), squares[1..], c)
  }

  lemma {:induction false} SetColorsCells(s: BoardState, squares: seq<Square>, c: Color)
    requires AllOnBoard(squares)
    ensures SetColors(s, squares, c).Cells() == Paint(s.Cells(), squares, c)
    decreases |squares|
  {
    if squares != [] {
      SetColorCells(s, squares[0].x, squares[0].y, c);
      SetColorsCells(SetColor(s, squares[0].x, squares[0].y, c), squares[1..], c);
    }
  }

  lemma {:induction false} SetColorsConsistent(s: BoardState, squares: seq<Square>, c: Color)
    requires AllOnBoard(squares) && Consistent(s)
    ensures Consistent(SetColors(s, squares, c))
    decreases |squares|
  {
    if squares != [] {
      SetColorConsistent(s, squares[0].x, squares[0].y, c);
      SetColorsConsistent(SetColor(s, squares[0].x, squares[0].y, c), squares[1..], c);
    }
  }

  /** Recolouring discs that are all occupied by the other colour raises the dirty flag exactly when there is one. */
  lemma {:induction false} SetColorsDirty(s: BoardState, squares: seq<Square>, c: Color)
    requires AllOnBoard(squares) && c != None
    ensures SetColors(s, squares, c).dirty ==> s.dirty || |squares| > 0
    ensures SetColors(s, squares, c).stable == s.stable
    ensures SetColors(s, squares, c).bStable == s.bStable && SetColors(s, squares, c).wStable == s.wStable
    decreases |squares|
  {
    if squares != [] {
      SetColorsDirty(SetColor(s, squares[0].x, squares[0].y, c), squares[1..], c);
    }
  }

  lemma {:induction false} SetColorsDirtyFirst(s: BoardState, squares: seq<Square>, c: Color)
    requires AllOnBoard(squares) && c != None && |squares| > 0
    requires s.ColorAt(squares[0].x, squares[0].y) != None && s.ColorAt(squares[0].x, squares[0].y) != c
    ensures SetColors(s, squares, c).dirty
  {
    var s' := SetColor(s, squares[0].x, squares[0].y, c);
    SetColorDirty(s, squares[0].x, squares[0].y, c);
    SetColorsKeepDirty(s', squares[1..], c);
  }

  lemma {:induction false} SetColorsKeepDirty(s: BoardState, squares: seq<Square>, c: Color)
    requires AllOnBoard(squares) && s.dirty
    ensures SetColors(s, squares, c).dirty
    decreases |squares|
  {
    if squares != [] {
      SetColorDirty(s, squares[0].x, squares[0].y, c);
      SetColorsKeepDirty(SetColor(s, squares[0].x, squares[0].y, c), squares[1..], c);
    }
  }

  /**
   * PlayMove(x, y, c): the flips are computed on the board before the move,
   * then (x, y) and each flipped square are set to c. Legality is not checked.
   */
  function PlayMove(s: BoardState, x: int, y: int, c: Color): BoardState
    requires OnBoard(x, y)
  {
    var flips := Flips(s.Cells(), x, y, c);
    FlipsFacts(s.Cells(), x, y, c);
    SetColors(SetColor(s, x, y, c), flips, c)
  }

  /**
   * PlayMove recolours (x, y) and every square of the pre-move flip list to
   * c and leaves every other square unchanged.
   */
  lemma PlayMoveCells(s: BoardState, x: int, y: int, c: Color)
    requires OnBoard(x, y)
    ensures forall i :: 0 <= i < 64 ==>
              PlayMove(s, x, y, c).Cells()[i] ==
                if i == Index(x, y) || Covers(Flips(s.Cells(), x, y, c), i) then c else s.Cells()[i]
  {
    var g := s.Cells();
    var flips := Flips(g, x, y, c);
    FlipsFacts(g, x, y, c);
    IndexInjective(x, y, 0, 0);
    SetColorCells(s, x, y, c);
    SetColorsCells(SetColor(s, x, y, c), flips, c);
    PaintSpec(g[Index(x, y) := c], flips, c);
  }

  /** PlayMove keeps the counters in step with the grid. */
  lemma PlayMoveConsistent(s: BoardState, x: int, y: int, c: Color)
    requires OnBoard(x, y) && Consistent(s)
    ensures Consistent(PlayMove(s, x, y, c))
  {
    FlipsFacts(s.Cells(), x, y, c);
    SetColorConsistent(s, x, y, c);
    SetColorsConsistent(SetColor(s, x, y, c), Flips(s.Cells(), x, y, c), c);
  }

  /**
   * On an empty target with k flips, c gains k + 1 discs, the opponent loses
   * k and one empty square is filled; the totals follow.
   */
  lemma PlayMoveCounts(s: BoardState, x: int, y: int, c: Color)
    requires OnBoard(x, y) && Consistent(s) && c != None && Cell(s.Cells(), x, y) == None
    ensures var k := |Flips(s.Cells(), x, y, c)|;
            var g' := PlayMove(s, x, y, c).Cells();
            Count(g', c) == Count(s.Cells(), c) + k + 1 &&
            Count(g', Opposing(c)) == Count(s.Cells(), Opposing(c)) - k &&
            Empties(g') == Empties(s.Cells()) - 1
    ensures var k := |Flips(s.Cells(), x, y, c)|;
            var t := PlayMove(s, x, y, c);
            (c == Black ==> t.bTotal == s.bTotal + k + 1 && t.wTotal == s.wTotal - k) &&
            (c == White ==> t.wTotal == s.wTotal + k + 1 && t.bTotal == s.bTotal - k)
  {
    var g := s.Cells();
    var i := Index(x, y);
    var flips := Flips(g, x, y, c);
    FlipsFacts(g, x, y, c);
    IndexInjective(x, y, 0, 0);
    PlaceOnEmpty(s, x, y, c);
    var g1 := g[i := c];
    CountUpdate(g, i, c, Opposing(c));
    forall e | e in flips
      ensures Cell(g1, e.x, e.y) == Opposing(c)
    {
      FlipsSurviveSetColor(s, x, y, c, e);
    }
    PaintCounts(g1, flips, Opposing(c), c);
    SetColorsCells(SetColor(s, x, y, c), flips, c);
    PlayMoveConsistent(s, x, y, c);
  }

  /** A move on an empty square fills exactly one empty square, whatever the counters say: the measure the search descends on. */
  lemma PlayMoveEmpties(s: BoardState, x: int, y: int, c: Color)
    requires OnBoard(x, y) && c != None && Cell(s.Cells(), x, y) == None
    ensures Empties(PlayMove(s, x, y, c).Cells()) == Empties(s.Cells()) - 1
  {
    var g := s.Cells();
    var i := Index(x, y);
    var flips := Flips(g, x, y, c);
    FlipsFacts(g, x, y, c);
    IndexInjective(x, y, 0, 0);
    SetColorCells(s, x, y, c);
    CountUpdate(g, i, c, None);
    var g1 := g[i := c];
    forall e | e in flips
      ensures Cell(g1, e.x, e.y) == Opposing(c)
    {
      FlipsSurviveSetColor(s, x, y, c, e);
    }
    PaintCounts(g1, flips, Opposing(c), c);
    SetColorsCells(SetColor(s, x, y, c), flips, c);
  }

  /** Setting (x, y) leaves every flip of (x, y) holding the other colour. */
  lemma FlipsSurviveSetColor(s: BoardState, x: int, y: int, c: Color, e: Square)
    requires OnBoard(x, y) && e in Flips(s.Cells(), x, y, c)
    ensures OnBoard(e.x, e.y) && c != None
    ensures SetColor(s, x, y, c).ColorAt(e.x, e.y) == Opposing(c)
  {
    FlipsFacts(s.Cells(), x, y, c);
    IndexInjective(x, y, e.x, e.y);
    SetColorCells(s, x, y, c);
  }

  /**
   * On an empty target, PlayMove raises the dirty flag exactly when it
   * turns at least one disc over (or the flag was already up), and leaves
   * the stability cache alone.
   */
  lemma PlayMoveDirty(s: BoardState, x: int, y: int, c: Color)
    requires OnBoard(x, y) && c != None && Cell(s.Cells(), x, y) == None
    ensures PlayMove(s, x, y, c).dirty <==> s.dirty || |Flips(s.Cells(), x, y, c)| > 0
    ensures PlayMove(s, x, y, c).stable == s.stable
    ensures PlayMove(s, x, y, c).bStable == s.bStable && PlayMove(s, x, y, c).wStable == s.wStable
  {
    var flips := Flips(s.Cells(), x, y, c);
    FlipsFacts(s.Cells(), x, y, c);
    var s1 := SetColor(s, x, y, c);
    SetColorDirty(s, x, y, c);
    assert s1.dirty == s.dirty;
    SetColorsDirty(s1, flips, c);
    if |flips| > 0 {
      assert flips[0] in flips;
      FlipsSurviveSetColor(s, x, y, c, flips[0]);
      SetColorsDirtyFirst(s1, flips, c);
    }
  }

  /** Placing a disc on an empty square: one more disc of c, one fewer empty square, the flag unchanged. */
  lemma PlaceOnEmpty(s: BoardState, x: int, y: int, c: Color)
    requires OnBoard(x, y) && Consistent(s) && c != None && Cell(s.Cells(), x, y) == None
    ensures Consistent(SetColor(s, x, y, c))
    ensures Count(SetColor(s, x, y, c).Cells(), c) == Count(s.Cells(), c) + 1
    ensures Empties(SetColor(s, x, y, c).Cells()) == Empties(s.Cells()) - 1
    ensures SetColor(s, x, y, c).dirty == s.dirty
    ensures SetColor(s, x, y, c).Cells() == s.Cells()[Index(x, y) := c]
  {
    IndexInjective(x, y, 0, 0);
    SetColorCells(s, x, y, c);
    SetColorConsistent(s, x, y, c);
    CountUpdate(s.Cells(), Index(x, y), c, c);
    CountUpdate(s.Cells(), Index(x, y), c, None);
  }

  // ---------------------------------------------------------------------
  // The constructor
  // ---------------------------------------------------------------------

  /** The fields as the constructor's initialisers leave them: empty masks, totals preset to 2. */
  predicate IsBlank(s: BoardState) {
    s.occupied == {} && s.owner == {} && s.stable == {} && !s.dirty &&
    s.bTotal == 2 && s.wTotal == 2 && s.bStable == 0 && s.wStable == 0
  }

  /** The one blank state. */
  function Blank(): (s: BoardState)
    ensures IsBlank(s)
  {
    BoardState({}, {}, {}, false, 2, 0, 2, 0)
  }

  /** The four _SetColor calls of the constructor. */
  function CentreDiscs(s: BoardState): BoardState {
    var s1 := SetColor(s, 3, 3, Black);
    var s2 := SetColor(s1, 4, 4, Black);
    var s3 := SetColor(s2, 4, 3, White);
    SetColor(s3, 3, 4, White)
  }

  /** new Board(). */
  function Initial(): BoardState {
    CentreDiscs(Blank())
  }

  /** The blank fields are consistent, with no disc on the board. */
  lemma BlankFacts(s: BoardState)
    requires IsBlank(s)
    ensures Consistent(s)
    ensures forall i :: 0 <= i < 64 ==> s.Cells()[i] == None
    ensures Count(s.Cells(), Black) == 0 && Count(s.Cells(), White) == 0
    ensures Empties(s.Cells()) == 64
  {
    assert s.Cells() == seq(64, _ => None);
    CountOfConstant(64, None, Black);
    CountOfConstant(64, None, White);
    CountOfConstant(64, None, None);
  }

  /** Placing the centre discs on an empty consistent board adds two discs of each colour. */
  lemma CentreDiscsFacts(s: BoardState)
    requires Consistent(s) && forall i :: 0 <= i < 64 ==> s.Cells()[i] == None
    ensures Consistent(CentreDiscs(s))
    ensures Count(CentreDiscs(s).Cells(), Black) == Count(s.Cells(), Black) + 2
    ensures Count(CentreDiscs(s).Cells(), White) == Count(s.Cells(), White) + 2
    ensures Empties(CentreDiscs(s).Cells()) == Empties(s.Cells()) - 4
    ensures CentreDiscs(s).dirty == s.dirty && CentreDiscs(s).stable == s.stable
    ensures CentreDiscs(s).bStable == s.bStable && CentreDiscs(s).wStable == s.wStable
    ensures CentreDiscs(s).bTotal == s.bTotal + 2 && CentreDiscs(s).wTotal == s.wTotal + 2
  {
    var s1 := SetColor(s, 3, 3, Black);
    PlaceOnEmpty(s, 3, 3, Black);
    var s2 := SetColor(s1, 4, 4, Black);
    assert s1.Cells()[36] == None;
    PlaceOnEmpty(s1, 4, 4, Black);
    var s3 := SetColor(s2, 4, 3, White);
    assert s2.Cells()[35] == None;
    PlaceOnEmpty(s2, 4, 3, White);
    CountUpdate(s2.Cells(), 35, White, Black);
    assert s3.Cells()[28] == None;
    PlaceOnEmpty(s3, 3, 4, White);
    CountUpdate(s3.Cells(), 28, White, Black);
    CountUpdate(s1.Cells(), 36, Black, White);
    CountUpdate(s.Cells(), 27, Black, White);
  }

  /**
   * A new board holds two discs of each colour, but each total reads 4; it
   * is consistent and not dirty, with nothing marked stable.
   */
  lemma InitialFacts(b: BoardState)
    requires IsBlank(b)
    ensures Consistent(CentreDiscs(b))
    ensures CentreDiscs(b).bTotal == 4 && CentreDiscs(b).wTotal == 4
    ensures Count(CentreDiscs(b).Cells(), Black) == 2 && Count(CentreDiscs(b).Cells(), White) == 2
    ensures Empties(CentreDiscs(b).Cells()) == 60
    ensures !CentreDiscs(b).dirty && CentreDiscs(b).stable == {}
    ensures CentreDiscs(b).bStable == 0 && CentreDiscs(b).wStable == 0
  {
    BlankFacts(b);
    CentreDiscsFacts(b);
  }

  // ---------------------------------------------------------------------
  // Stability and the read-only queries
  // ---------------------------------------------------------------------

  /**
   * _CalculateStability: the stable mask becomes the stable closure, the
   * flag is cleared, and each counter grows (it is not reset) by the number
   * of its non-corner stable discs.
   */
  ghost function CalculateStability(s: BoardState): BoardState {
    var g := s.Cells();
    var closure := StableClosure(g);
    s.(stable := closure, dirty := false,
       bStable := s.bStable + |StableDiscs(g, closure, Black)|,
       wStable := s.wStable + |StableDiscs(g, closure, White)|)
  }

  /** What GetStableCount does to the board before reading: recompute only when dirty. */
  ghost function Refresh(s: BoardState): BoardState {
    if s.dirty then CalculateStability(s) else s
  }

  /** After a refresh the stable mask holds every occupied corner and only occupied squares, and nothing else changed but the stability cache. */
  lemma RefreshFacts(s: BoardState)
    ensures !Refresh(s).dirty
    ensures Refresh(s).Cells() == s.Cells()
    ensures Refresh(s).occupied == s.occupied && Refresh(s).owner == s.owner
    ensures Refresh(s).bTotal == s.bTotal && Refresh(s).wTotal == s.wTotal
    ensures s.dirty ==> forall i :: i in Refresh(s).stable ==> i in s.occupied
    ensures s.dirty ==> forall i :: 0 <= i < 64 && IsCorner(i) && i in s.occupied ==> i in Refresh(s).stable
  {
    if s.dirty {
      ClosureOccupied(s.Cells());
      ClosureCorners(s.Cells());
    }
  }

  /** Two stability reads in a row see the same state: the second does not recompute. */
  lemma RefreshIdempotent(s: BoardState)
    ensures Refresh(Refresh(s)) == Refresh(s)
  {
  }

  /** GetTotalCount(c): -1 for None. */
  function TotalCount(s: BoardState, c: Color): int {
    if c == Black then s.bTotal else if c == White then s.wTotal else -1
  }

  /** The counter GetStableCount(c) reads (on a refreshed board): -1 for None. */
  function StableCount(s: BoardState, c: Color): int {
    if c == Black then s.bStable else if c == White then s.wStable else -1
  }

  /**
   * What GetStableCount(c) returns: -1 for None; otherwise the colour's
   * counter, grown by its non-corner stable discs when the board was dirty.
   */
  lemma StableCountRefreshed(s: BoardState, c: Color)
    ensures c == None ==> StableCount(Refresh(s), c) == -1
    ensures c != None && !s.dirty ==> StableCount(Refresh(s), c) == StableCount(s, c)
    ensures c != None && s.dirty ==>
      StableCount(Refresh(s), c) == StableCount(s, c) + |StableDiscs(s.Cells(), StableClosure(s.Cells()), c)|
  {
  }

  /** GetMoveNumber. */
  function MoveNumber(s: BoardState): int {
    s.bTotal + s.wTotal - 4
  }

  /** On a consistent board GetMoveNumber is the number of discs: 4 on a new board, as each total is offset by 2. */
  lemma MoveNumberIsDiscs(s: BoardState)
    requires Consistent(s)
    ensures MoveNumber(s) == Count(s.Cells(), Black) + Count(s.Cells(), White)
    ensures MoveNumber(s) == 64 - Empties(s.Cells())
  {
    CountPartition(s.Cells());
  }

  /** GetWinner: None on equal totals, otherwise the colour with the larger total. */
  function Winner(s: BoardState): Color {
    if s.bTotal == s.wTotal then None
    else if s.bTotal < s.wTotal then White
    else Black
  }

  /** On a consistent board the winner is decided by the disc counts. */
  lemma WinnerByDiscs(s: BoardState)
    requires Consistent(s)
    ensures Winner(s) == None <==> Count(s.Cells(), Black) == Count(s.Cells(), White)
    ensures Winner(s) == White <==> Count(s.Cells(), Black) < Count(s.Cells(), White)
    ensures Winner(s) == Black <==> Count(s.Cells(), Black) > Count(s.Cells(), White)
  {
  }

  /** IsGameOver on a state. */
  predicate IsGameOver(s: BoardState) {
    GameOver(s.Cells())
  }
}
