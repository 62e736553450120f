/**
 * The Board class of Lib/Board.cs: three 64-bit masks, a dirty flag and four
 * counters, updated in place. Every method is proved to move the fields
 * exactly as the functions of the States module say, and every query to
 * return what the Rules and Stability modules define.
 */
module Boards {
  import opened Geometry
  import opened Masks
  import opened Rules
  import opened Stability
  import opened States

  class Board {
    var occupied: Bits
    var owner: Bits
    var stable: Bits
    var dirty: bool
    var bTotal: int
    var bStable: int
    var wTotal: int
    var wStable: int

    /** The eight fields as one value. */
    function State(): BoardState
      reads this
    {
      BoardState(occupied, owner, stable, dirty, bTotal, bStable, wTotal, wStable)
    }

    /** new Board(): the start position. */
    constructor ()
      ensures State() == Initial()
    {
      occupied := {};
      owner := {};
      stable := {};
      dirty := false;
      wTotal := 2;
      bTotal := 2;
      bStable := 0;
      wStable := 0;
      new;
      SetColor(3, 3, Black);
      SetColor(4, 4, Black);
      SetColor(4, 3, White);
      SetColor(3, 4, White);
    }

    /** new Board(board): a copy of the fields of another board. */
    constructor Copy(board: Board)
      ensures State() == board.State()
    {
      new;
      LoadFrom(board);
    }

    /** LoadFrom: overwrite every field with the other board's. */
    method LoadFrom(board: Board)
      modifies this
      ensures State() == old(board.State())
    {
      occupied := board.occupied;
      owner := board.owner;
      dirty := board.dirty;
      stable := board.stable;
      wTotal := board.wTotal;
      bTotal := board.bTotal;
      bStable := board.bStable;
      wStable := board.wStable;
    }

    /**
     * GetColor / _GetColor: the colour the masks give the square with index
     * x * 8 + y; a 64-bit shift uses only the low six bits of its count, so
     * an index outside 0..63 is read modulo 64.
     */
    function GetColor(x: int, y: int): (c: Color)
      reads this
      ensures OnBoard(x, y) ==> c == Cell(State().Cells(), x, y)
    {
      ColorOf(occupied, owner, Index(x, y) % 64)
    }

    /** _SetColor, branch by branch. */
    method SetColor(x: int, y: int, c: Color)
      requires OnBoard(x, y)
      modifies this
      ensures State() == States.SetColor(old(State()), x, y, c)
    {
      var prev := GetColor(x, y);
      var index := x * 8 + y;
      if c == None {
        if prev != None {
          if prev == White {
            wTotal := wTotal - 1;
          } else {
            bTotal := bTotal - 1;
          }
        }
        occupied := occupied - {index};
        dirty := true;
        return;
      }
      occupied := occupied + {index};
      if c == Black {
        owner := owner - {index};
      } else {
        owner := owner + {index};
      }
      if prev == None {
        if c == Black {
          bTotal := bTotal + 1;
        } else if c == White {
          wTotal := wTotal + 1;
        }
      } else if c != prev {
        if c == Black {
          bTotal := bTotal + 1;
          wTotal := wTotal - 1;
        } else if c == White {
          wTotal := wTotal + 1;
          bTotal := bTotal - 1;
        }
        dirty := true;
      }
    }

    /**
     * _GetFlips: for each direction in table order, the discs that direction
     * captures are put in front of the result.
     */
    method GetFlips(x: int, y: int, c: Color) returns (res: seq<Square>)
      ensures res == Flips(State().Cells(), x, y, c)
    {
      ghost var g := State().Cells();
      res := [];
      for d := 0 to 8
        invariant res == FlipsUpTo(g, x, y, c, d)
      {
        res := FlipsInDirection(x, y, c, d, res, g);
      }
    }

    /** One pass of the direction loop of _GetFlips: direction d's captures go in front. */
    method FlipsInDirection(x: int, y: int, c: Color, d: int, before: seq<Square>, ghost g: Grid)
      returns (res: seq<Square>)
      requires 0 <= d < 8 && g == State().Cells() && before == FlipsUpTo(g, x, y, c, d)
      ensures res == FlipsUpTo(g, x, y, c, d + 1)
    {
      assert |Directions| == 16 by { DirectionEntries(d); }
      var dx, dy := Directions[d * 2], Directions[d * 2 + 1];
      assert dx == DX(d) && dy == DY(d) by { DirectionEntries(d); }
      assert IsStep(dx, dy) by { DirectionTable(d); }
      res := CollectRun(x, y, dx, dy, c, before);
      assert res == RunOf(g, x, y, c, d) + before;
    }

    /**
     * The body of the direction loop of _GetFlips: walk away from (x, y)
     * collecting discs of the other colour (each put first in a cache); a
     * disc that is not of the other colour closes the run and the cache is
     * moved, one disc at a time to the front, into the result. An empty
     * square or the edge drops the cache. The cursor (px, py) is the square
     * (x + dx * index, y + dy * index) of the source.
     */
    method CollectRun(x: int, y: int, dx: int, dy: int, c: Color, before: seq<Square>)
      returns (res: seq<Square>)
      requires IsStep(dx, dy)
      ensures res == RayFlips(State().Cells(), x + dx, y + dy, dx, dy, c) + before
    {
      ghost var g := State().Cells();
      res := WalkRun(x + dx, y + dy, dx, dy, c, before, g);
      PendingStart(g, x + dx, y + dy, dx, dy, c, before);
    }

    /** The while loop of CollectRun from the neighbour (nx, ny), with an empty cache. */
    method WalkRun(nx: int, ny: int, dx: int, dy: int, c: Color, before: seq<Square>, ghost g: Grid)
      returns (res: seq<Square>)
      requires IsStep(dx, dy) && g == State().Cells()
      ensures res == Pending(g, nx, ny, dx, dy, c, [], before)
    {
      res := before;
      var cache: seq<Square> := [];
      var px, py := nx, ny;
      while OnBoard(px, py)
        invariant res == before
        invariant Pending(g, px, py, dx, dy, c, cache, before) == Pending(g, nx, ny, dx, dy, c, [], before)
        decreases Remaining(px, py, dx, dy)
      {
        RemainingDecreases(px, py, dx, dy);
        var stop;
        stop, cache, res := RunStep(px, py, dx, dy, c, cache, res, g);
        if stop {
          return;
        }
        px, py := px + dx, py + dy;
      }
    }

    /**
     * One pass of the loop of CollectRun at the on-board square (px, py):
     * an empty square stops the run with nothing added, a disc of the
     * other colour goes first in the cache, any other disc stops the run
     * and moves the cache to the front of the result.
     */
    method RunStep(px: int, py: int, dx: int, dy: int, c: Color, cache: seq<Square>, before: seq<Square>, ghost g: Grid)
      returns (stop: bool, cache': seq<Square>, res: seq<Square>)
      requires IsStep(dx, dy) && OnBoard(px, py) && g == State().Cells()
      ensures stop ==> res == Pending(g, px, py, dx, dy, c, cache, before)
      ensures !stop ==> res == before
      ensures !stop ==> Pending(g, px + dx, py + dy, dx, dy, c, cache', before) == Pending(g, px, py, dx, dy, c, cache, before)
    {
      var cell := GetColor(px, py);
      res, cache' := before, cache;
      if cell != None && IsOpponent(cell, c) {
        cache' := [Square(px, py)] + cache;
        stop := false;
      } else {
        if cell != None {
          res := MoveToFront(cache, before);
        }
        stop := true;
      }
    }

    /**
     * GetValidMoves: scan the squares in row-major order and put each empty
     * square from which some direction brackets a run of the other colour
     * first in the list. The source inserts the square inside the direction
     * loop, which stops right after, so each square goes in at most once.
     */
    method GetValidMoves(c: Color) returns (validMoves: seq<Square>)
      ensures validMoves == ValidMoves(State().Cells(), c)
    {
      ghost var g := State().Cells();
      validMoves := [];
      for i := 0 to 8
        invariant validMoves == MovesBelow(g, c, i * 8)
      {
        validMoves := ScanRow(i, c, validMoves);
      }
    }

    /** The inner loop of GetValidMoves over row i. */
    method ScanRow(i: int, c: Color, moves: seq<Square>) returns (validMoves: seq<Square>)
      requires 0 <= i < 8 && moves == MovesBelow(State().Cells(), c, i * 8)
      ensures validMoves == MovesBelow(State().Cells(), c, i * 8 + 8)
    {
      ghost var g := State().Cells();
      ghost var start := i * 8;
      validMoves := moves;
      for j := 0 to 8
        invariant validMoves == MovesBelow(g, c, start + j)
      {
        validMoves := ScanSquare(i, j, c, validMoves);
      }
    }

    /** One pass of the inner loop of GetValidMoves: the list grows from the squares below (i, j) to those up to it. */
    method ScanSquare(i: int, j: int, c: Color, moves: seq<Square>) returns (validMoves: seq<Square>)
      requires OnBoard(i, j) && 0 <= Index(i, j) < 64
      requires moves == MovesBelow(State().Cells(), c, Index(i, j))
      ensures validMoves == MovesBelow(State().Cells(), c, Index(i, j) + 1)
    {
      MovesBelowStep(State().Cells(), c, i, j);
      validMoves := ConsiderSquare(i, j, c, moves);
    }

    /**
     * The body of GetValidMoves' inner loop: an occupied square is skipped,
     * an empty one is put first when some direction opens a capture.
     */
    method ConsiderSquare(i: int, j: int, c: Color, moves: seq<Square>) returns (validMoves: seq<Square>)
      requires OnBoard(i, j)
      ensures validMoves == (if Legal(State().Cells(), i, j, c) then [Square(i, j)] else []) + moves
    {
      validMoves := moves;
      if GetColor(i, j) != None {
        return;
      }
      var isValidMove := CheckDirections(i, j, c);
      if isValidMove {
        validMoves := [Square(i, j)] + validMoves;
      }
    }

    /** The direction loop of GetValidMoves: it stops at the first direction that opens a capture. */
    method CheckDirections(i: int, j: int, c: Color) returns (isValidMove: bool)
      requires OnBoard(i, j)
      ensures isValidMove == OpensBelow(State().Cells(), i, j, c, 8)
    {
      ghost var g := State().Cells();
      isValidMove := false;
      var d := 0;
      while d < 8 && !isValidMove
        invariant 0 <= d <= 8
        invariant isValidMove == OpensBelow(g, i, j, c, d)
      {
        isValidMove := TryDirection(i, j, c, d);
        d := d + 1;
      }
      if isValidMove {
        OpensBelowGrows(g, i, j, c, d, 8);
      }
    }

    /**
     * One pass of the direction loop: the neighbour in direction d holds the
     * other colour and the run behind it ends in a disc of colour c.
     */
    method TryDirection(i: int, j: int, c: Color, d: int) returns (isValidMove: bool)
      requires OnBoard(i, j) && 0 <= d < 8
      ensures isValidMove == Opens(State().Cells(), i, j, c, d)
    {
      ghost var g := State().Cells();
      assert |Directions| == 16 by { DirectionEntries(d); }
      var dx, dy := Directions[d * 2], Directions[d * 2 + 1];
      assert dx == DX(d) && dy == DY(d) by { DirectionEntries(d); }
      assert IsStep(dx, dy) by { DirectionTable(d); }
      assert Opens(g, i, j, c, d) == RayOpens(g, i + dx, j + dy, dx, dy, c);
      isValidMove := RayTest(i + dx, j + dy, dx, dy, c);
    }

    /**
     * The test of TryDirection once the step is read from the table: the
     * neighbour (nx, ny) holds the other colour and the run behind it ends
     * in a disc of colour c.
     */
    method RayTest(nx: int, ny: int, dx: int, dy: int, c: Color) returns (isValidMove: bool)
      requires IsStep(dx, dy)
      ensures isValidMove == RayOpens(State().Cells(), nx, ny, dx, dy, c)
    {
      isValidMove := false;
      if OnBoard(nx, ny) && IsOpponent(c, GetColor(nx, ny)) {
        isValidMove := ScanBracket(nx + dx, ny + dy, dx, dy, c);
      }
    }

    /**
     * The inner while loop of GetValidMoves, from the square two steps away
     * (index 2): it succeeds on a disc of colour c and fails on an empty
     * square or at the edge.
     */
    method ScanBracket(px: int, py: int, dx: int, dy: int, c: Color) returns (isValidMove: bool)
      requires IsStep(dx, dy)
      ensures isValidMove == Brackets(State().Cells(), px, py, dx, dy, c)
    {
      ghost var g := State().Cells();
      isValidMove := false;
      var qx, qy := px, py;
      while OnBoard(qx, qy)
        invariant !isValidMove && Brackets(g, px, py, dx, dy, c) == Brackets(g, qx, qy, dx, dy, c)
        decreases Remaining(qx, qy, dx, dy)
      {
        RemainingDecreases(qx, qy, dx, dy);
        if GetColor(qx, qy) == c {
          isValidMove := true;
          break;
        }
        if GetColor(qx, qy) == None {
          isValidMove := false;
          break;
        }
        qx, qy := qx + dx, qy + dy;
      }
    }

    /** IsGameOver: neither colour has a move (White is asked only when Black has none). */
    method IsGameOver() returns (over: bool)
      ensures over == GameOver(State().Cells())
    {
      var black := GetValidMoves(Black);
      over := |black| == 0;
      if over {
        var white := GetValidMoves(White);
        over := |white| == 0;
      }
    }

    /** GetMoveCount(c): the length of the move list. */
    method GetMoveCount(c: Color) returns (count: int)
      ensures count == |ValidMoves(State().Cells(), c)|
    {
      var moves := GetValidMoves(c);
      count := |moves|;
    }

    /** GetStableCount(c): recompute the stable discs first when the board is dirty; -1 for None. */
    method GetStableCount(c: Color) returns (count: int)
      modifies this
      ensures State() == Refresh(old(State()))
      ensures count == StableCount(State(), c)
    {
      if dirty {
        CalculateStability();
      }
      if c == Black {
        return bStable;
      } else if c == White {
        return wStable;
      }
      return -1;
    }

    /** _Occupied(i): the occupied bit of square i (a shift uses its count modulo 64). */
    predicate Occupied(i: int)
      reads this
    {
      i % 64 in occupied
    }

    /** _Stable(i). */
    predicate IsStable(i: int)
      reads this
    {
      i % 64 in stable
    }

    /**
     * _CalculateStability: a breadth-first search from the occupied corners.
     * A child of a dequeued square is marked, counted for its colour and
     * queued when it is occupied, not yet marked and, on each of the four
     * axes, has a side off the board or a marked disc of its own colour. The
     * counters are not reset first, and corners are marked but never counted.
     */
    method CalculateStability()
      modifies this
      ensures State() == States.CalculateStability(old(State()))
    {
      ghost var s0 := State();
      ghost var g := s0.Cells();
      StableSearch(g);
      dirty := false;
    }

    /**
     * The search of _CalculateStability from the cleared mask: afterwards
     * the stable mask is the stable closure, and each counter has grown by
     * the number of its non-corner discs in it.
     */
    method StableSearch(ghost g: Grid)
      requires g == State().Cells()
      modifies this
      ensures occupied == old(occupied) && owner == old(owner) && dirty == old(dirty)
      ensures bTotal == old(bTotal) && wTotal == old(wTotal)
      ensures stable == StableClosure(g)
      ensures bStable == old(bStable) + |StableDiscs(g, stable, Black)|
      ensures wStable == old(wStable) + |StableDiscs(g, stable, White)|
    {
      ghost var b0, w0 := bStable, wStable;
      var queue := StartSearch(g);
      ghost var processed := DrainQueue(queue, g, b0, w0);
      SearchDone(g, stable, processed, b0, w0, bStable, wStable);
    }

    /** The queue loop of _CalculateStability: run search steps until the queue is empty. */
    method DrainQueue(queue0: seq<Square>, ghost g: Grid, ghost b0: int, ghost w0: int) returns (ghost processed: set<int>)
      requires g == State().Cells()
      requires Searching(g, stable, {}, queue0, b0, w0, bStable, wStable)
      modifies this
      ensures occupied == old(occupied) && owner == old(owner) && dirty == old(dirty)
      ensures bTotal == old(bTotal) && wTotal == old(wTotal)
      ensures Searching(g, stable, processed, [], b0, w0, bStable, wStable)
    {
      var queue := queue0;
      processed := {};
      while |queue| != 0
        invariant occupied == old(occupied) && owner == old(owner) && dirty == old(dirty)
        invariant bTotal == old(bTotal) && wTotal == old(wTotal)
        invariant g == State().Cells()
        invariant Searching(g, stable, processed, queue, b0, w0, bStable, wStable)
        decreases Unmarked(stable), |queue|
      {
        queue, processed := SearchStep(queue, g, processed, b0, w0);
      }
    }

    /** SeedCorners, with the search put in shape: nothing processed, the marked corners queued. */
    method StartSearch(ghost g: Grid) returns (queue: seq<Square>)
      requires g == State().Cells()
      modifies this
      ensures occupied == old(occupied) && owner == old(owner) && dirty == old(dirty)
      ensures bTotal == old(bTotal) && wTotal == old(wTotal) && bStable == old(bStable) && wStable == old(wStable)
      ensures Searching(g, stable, {}, queue, bStable, wStable, bStable, wStable)
    {
      queue := SeedCorners();
      CornerSeedsQueue(occupied);
      CornerSeedsMarks(occupied, owner);
      Seeded(g, stable, queue, bStable, wStable);
    }

    /**
     * One pass of the queue loop of _CalculateStability: dequeue the head
     * and visit its eight children. Either a square gets marked or the
     * queue gets shorter.
     */
    method SearchStep(queue: seq<Square>, ghost g: Grid, ghost processed: set<int>, ghost b0: int, ghost w0: int)
      returns (next: seq<Square>, ghost processed': set<int>)
      requires g == State().Cells() && |queue| != 0
      requires Searching(g, stable, processed, queue, b0, w0, bStable, wStable)
      modifies this
      ensures occupied == old(occupied) && owner == old(owner) && dirty == old(dirty)
      ensures bTotal == old(bTotal) && wTotal == old(wTotal)
      ensures Searching(g, stable, processed', next, b0, w0, bStable, wStable)
      ensures Unmarked(stable) < Unmarked(old(stable)) || (stable == old(stable) && |next| < |queue|)
    {
      Dequeue(g, stable, processed, queue, b0, w0, bStable, wStable);
      var s := queue[0];
      processed' := processed + {s.ToIndex()};
      next := ExploreChildren(s, queue[1..], g, processed, processed', b0, w0);
    }

    /** The first part of _CalculateStability: clear the stable mask, then mark and queue the occupied corners. */
    method SeedCorners() returns (queue: seq<Square>)
      modifies this
      ensures occupied == old(occupied) && owner == old(owner) && dirty == old(dirty)
      ensures bTotal == old(bTotal) && wTotal == old(wTotal) && bStable == old(bStable) && wStable == old(wStable)
      ensures queue == CornerSeeds(occupied) && stable == occupied * {0, 7, 56, 63}
    {
      stable := {};
      queue := [];
      if Occupied(0) {
        queue := queue + [Square(0, 0)];
        stable := stable + {0};
      }
      if Occupied(7) {
        queue := queue + [Square(0, 7)];
        stable := stable + {7};
      }
      if Occupied(56) {
        queue := queue + [Square(7, 0)];
        stable := stable + {56};
      }
      if Occupied(63) {
        queue := queue + [Square(7, 7)];
        stable := stable + {63};
      }
    }

    /** The loop over the eight children of the dequeued square s. */
    method ExploreChildren(s: Square, queue: seq<Square>, ghost g: Grid, ghost before: set<int>,
                           ghost processed: set<int>, ghost b0: int, ghost w0: int)
      returns (next: seq<Square>)
      requires g == State().Cells()
      requires Exploring(g, stable, before, processed, queue, s, 0, b0, w0, bStable, wStable)
      modifies this
      ensures occupied == old(occupied) && owner == old(owner) && dirty == old(dirty)
      ensures bTotal == old(bTotal) && wTotal == old(wTotal)
      ensures Searching(g, stable, processed, next, b0, w0, bStable, wStable)
      ensures Unmarked(stable) < Unmarked(old(stable)) || (next == queue && stable == old(stable))
    {
      next := queue;
      for d := 0 to 8
        invariant occupied == old(occupied) && owner == old(owner) && dirty == old(dirty)
        invariant bTotal == old(bTotal) && wTotal == old(wTotal)
        invariant Exploring(g, stable, before, processed, next, s, d, b0, w0, bStable, wStable)
        invariant Unmarked(stable) <= Unmarked(old(stable))
        invariant Unmarked(stable) < Unmarked(old(stable)) || (next == queue && stable == old(stable))
      {
        assert |Directions| == 16 by { DirectionEntries(d); }
        var child := Square(s.x + Directions[d * 2], s.y + Directions[d * 2 + 1]);
        assert child == Square(s.x + DX(d), s.y + DY(d)) by { DirectionEntries(d); }
        ghost var (marked, queued, b, w) := (stable, next, bStable, wStable);
        next := VisitChild(child, next, g);
        ExploreStep(g, marked, before, processed, queued, s, d, b0, w0, b, w, stable, next, bStable, wStable);
      }
      ExploreDone(g, stable, before, processed, next, s, b0, w0, bStable, wStable);
    }

    /** The body of the child loop: mark, count and queue the child when the search marks it. */
    method VisitChild(child: Square, queue: seq<Square>, ghost g: Grid) returns (next: seq<Square>)
      requires g == State().Cells()
      modifies this
      ensures occupied == old(occupied) && owner == old(owner) && dirty == old(dirty)
      ensures bTotal == old(bTotal) && wTotal == old(wTotal)
      ensures Visited(g, old(stable), queue, old(bStable), old(wStable), child, stable, next, bStable, wStable)
    {
      next := queue;
      if OnBoard(child.x, child.y) && Occupied(child.ToIndex()) {
        IndexInjective(child.x, child.y, 0, 0);
        var stb := StableInAllAxes(child.x, child.y);
        if stb && !IsStable(child.ToIndex()) {
          next := MarkChild(child, queue, g);
        } else {
          assert !Marks(g, stable, child);
        }
      } else {
        assert !Marks(g, stable, child);
      }
    }

    /** Mark an occupied on-board child stable, count it for its colour and queue it. */
    method MarkChild(child: Square, queue: seq<Square>, ghost g: Grid) returns (next: seq<Square>)
      requires g == State().Cells() && OnBoard(child.x, child.y) && Occupied(child.ToIndex())
      modifies this
      ensures occupied == old(occupied) && owner == old(owner) && dirty == old(dirty)
      ensures bTotal == old(bTotal) && wTotal == old(wTotal)
      ensures stable == old(stable) + {child.ToIndex()} && next == queue + [child]
      ensures bStable == old(bStable) + (if At(g, child.ToIndex()) == Black then 1 else 0)
      ensures wStable == old(wStable) + (if At(g, child.ToIndex()) == White then 1 else 0)
    {
      IndexInjective(child.x, child.y, 0, 0);
      var color := GetColor(child.x, child.y);
      assert color == At(g, child.ToIndex());
      stable := stable + {child.ToIndex()};
      if color == Black {
        bStable := bStable + 1;
      } else {
        wStable := wStable + 1;
      }
      next := queue + [child];
    }

    /**
     * The sid array of _CalculateStability for one child, and stb: on each
     * of the four axes (directions d and d + 4) one side is off the board or
     * a marked disc of the child's colour.
     */
    method StableInAllAxes(cx: int, cy: int) returns (stb: bool)
      requires OnBoard(cx, cy)
      ensures stb == Eligible(State().Cells(), stable, cx, cy)
    {
      ghost var g, t := State().Cells(), stable;
      var sid := new bool[8];
      for d := 0 to 8
        invariant forall e :: 0 <= e < d ==> sid[e] == Secured(g, t, cx, cy, e)
      {
        sid[d] := SideSecured(cx, cy, d);
      }
      stb := (sid[0] || sid[4]) && (sid[1] || sid[5]) && (sid[2] || sid[6]) && (sid[3] || sid[7]);
    }

    /**
     * One entry of the sid array: the neighbour in direction d is off the
     * board, or a marked disc of the same colour as (cx, cy).
     */
    method SideSecured(cx: int, cy: int, d: int) returns (secured: bool)
      requires OnBoard(cx, cy) && 0 <= d < 8
      ensures secured == Secured(State().Cells(), stable, cx, cy, d)
    {
      assert |Directions| == 16 by { DirectionEntries(d); }
      var nx, ny := cx + Directions[d * 2], cy + Directions[d * 2 + 1];
      assert nx == cx + DX(d) && ny == cy + DY(d) by { DirectionEntries(d); }
      secured := !OnBoard(nx, ny) || (IsStable(Square(nx, ny).ToIndex()) && GetColor(cx, cy) == GetColor(nx, ny));
      if OnBoard(nx, ny) {
        IndexInjective(nx, ny, 0, 0);
      }
    }

    /** GetWinner: on a consistent board, the colour with more discs, or None on equal counts. */
    function GetWinner(): (w: Color)
      reads this
      ensures Consistent(State()) ==>
        (w == None <==> Count(State().Cells(), Black) == Count(State().Cells(), White))
      ensures Consistent(State()) ==>
        (w == Black <==> Count(State().Cells(), Black) > Count(State().Cells(), White))
      ensures Consistent(State()) ==>
        (w == White <==> Count(State().Cells(), Black) < Count(State().Cells(), White))
    {
      Winner(State())
    }

    /** GetTotalCount(c): -1 for None; on a consistent board, the colour's discs plus the offset 2. */
    function GetTotalCount(c: Color): (n: int)
      reads this
      ensures c == None ==> n == -1
      ensures Consistent(State()) && c != None ==> n == Count(State().Cells(), c) + 2
    {
      TotalCount(State(), c)
    }

    /** GetMoveNumber: on a consistent board, the number of discs, that is of filled squares. */
    function GetMoveNumber(): (n: int)
      reads this
      ensures Consistent(State()) ==> n == Count(State().Cells(), Black) + Count(State().Cells(), White)
      ensures Consistent(State()) ==> n == 64 - Empties(State().Cells())
    {
      var s := State();
      if Consistent(s) then MoveNumberIsDiscs(s); MoveNumber(s) else MoveNumber(s)
    }

    /** Equals: two boards are equal when their occupied and owner masks are. */
    predicate Equals(other: Board?)
      reads this, other
    {
      other != null && owner == other.owner && occupied == other.occupied
    }

    /** PlayMove: compute the flips on the board as it is, then set the square and each flip to c. */
    method PlayMove(x: int, y: int, c: Color)
      requires OnBoard(x, y)
      modifies this
      ensures State() == States.PlayMove(old(State()), x, y, c)
    {
      var flips := GetFlips(x, y, c);
      FlipsFacts(State().Cells(), x, y, c);
      SetColor(x, y, c);
      for k := 0 to |flips|
        invariant AllOnBoard(flips[k..])
        invariant SetColors(State(), flips[k..], c) == States.PlayMove(old(State()), x, y, c)
      {
        assert flips[k..][1..] == flips[k + 1..];
        SetColor(flips[k].x, flips[k].y, c);
      }
    }
  }

  /** Each element of cache in turn added at the front of list: the cache read backwards, then list. */
  function Unload(cache: seq<Square>, list: seq<Square>): seq<Square> {
    if |cache| == 0 then list else Unload(cache[1..], [cache[0]] + list)
  }

  /** Unloading a cache built by adding squares first restores the order in which they were added. */
  lemma {:induction false} UnloadRestores(sqs: seq<Square>, list: seq<Square>)
    ensures Unload(Stacked(sqs), list) == sqs + list
  {
    if |sqs| > 0 {
      var last := sqs[|sqs| - 1];
      var init := sqs[..|sqs| - 1];
      assert Stacked(sqs) == [last] + Stacked(init);
      assert ([last] + Stacked(init))[1..] == Stacked(init);
      UnloadRestores(init, [last] + list);
      assert init + ([last] + list) == sqs + list;
    }
  }

  /** The cache after adding each of sqs first, in order. */
  function Stacked(sqs: seq<Square>): seq<Square> {
    if |sqs| == 0 then [] else [sqs[|sqs| - 1]] + Stacked(sqs[..|sqs| - 1])
  }

  /** The foreach loop that empties the cache: each element in turn is added at the front of the list. */
  method MoveToFront(cache: seq<Square>, list: seq<Square>) returns (res: seq<Square>)
    ensures res == Unload(cache, list)
  {
    res := list;
    for k := 0 to |cache|
      invariant Unload(cache[k..], res) == Unload(cache, list)
    {
      assert cache[k..][1..] == cache[k + 1..];
      res := [cache[k]] + res;
    }
  }

  /**
   * What the loop of _GetFlips, at the cursor (px, py) with the discs in
   * `cache` already passed, leaves in front of the flips `before` of the
   * earlier directions: an empty square or the edge leaves `before`, a disc
   * of the other colour goes first in the cache, any other disc unloads the
   * cache onto `before`.
   */
  function Pending(g: Grid, px: int, py: int, dx: int, dy: int, c: Color, cache: seq<Square>, before: seq<Square>): seq<Square>
    requires IsStep(dx, dy)
    decreases Remaining(px, py, dx, dy)
  {
    if !OnBoard(px, py) || Cell(g, px, py) == None then before
    else if IsOpponent(Cell(g, px, py), c) then
      RemainingDecreases(px, py, dx, dy);
      Pending(g, px + dx, py + dy, dx, dy, c, [Square(px, py)] + cache, before)
    else Unload(cache, before)
  }

  /** A square added first to the cache comes out just before what the rest of the cache is unloaded onto. */
  lemma UnloadPush(cache: seq<Square>, sq: Square, list: seq<Square>)
    ensures Unload([sq] + cache, list) == Unload(cache, [sq] + list)
  {
    assert ([sq] + cache)[1..] == cache;
  }

  /** A disc pushed on the cache ends up just ahead of the run that follows it. */
  lemma UnloadCons(cache: seq<Square>, sq: Square, run: seq<Square>, before: seq<Square>)
    ensures Unload([sq] + cache, run + before) == Unload(cache, ([sq] + run) + before)
  {
    UnloadPush(cache, sq, run + before);
    assert [sq] + (run + before) == ([sq] + run) + before;
  }

  /** The loop's outcome is the walk's: the cache unloaded ahead of the captured run, or nothing new. */
  lemma {:induction false} PendingWalk(g: Grid, px: int, py: int, dx: int, dy: int, c: Color, cache: seq<Square>, before: seq<Square>)
    requires IsStep(dx, dy)
    ensures var w := Walk(g, px, py, dx, dy, c);
      Pending(g, px, py, dx, dy, c, cache, before) == if w.Captured? then Unload(cache, w.squares + before) else before
    decreases Remaining(px, py, dx, dy)
  {
    if OnBoard(px, py) && Cell(g, px, py) != None && IsOpponent(Cell(g, px, py), c) {
      var sq := Square(px, py);
      RemainingDecreases(px, py, dx, dy);
      PendingWalk(g, px + dx, py + dy, dx, dy, c, [sq] + cache, before);
      var w := Walk(g, px + dx, py + dy, dx, dy, c);
      assert Pending(g, px, py, dx, dy, c, cache, before) == Pending(g, px + dx, py + dy, dx, dy, c, [sq] + cache, before);
      assert Walk(g, px, py, dx, dy, c) == if w.Captured? then Captured([sq] + w.squares) else Escaped;
      if w.Captured? {
        UnloadCons(cache, sq, w.squares, before);
      }
    } else if OnBoard(px, py) && Cell(g, px, py) != None {
      assert Walk(g, px, py, dx, dy, c) == Captured([]);
      assert [] + before == before;
    }
  }

  /** With an empty cache, the loop adds exactly the discs RayFlips captures. */
  lemma PendingStart(g: Grid, nx: int, ny: int, dx: int, dy: int, c: Color, before: seq<Square>)
    requires IsStep(dx, dy)
    ensures Pending(g, nx, ny, dx, dy, c, [], before) == RayFlips(g, nx, ny, dx, dy, c) + before
  {
    PendingWalk(g, nx, ny, dx, dy, c, [], before);
    assert [] + before == before;
  }

  /** Equal boards show the same discs on every square. */
  lemma EqualsSameCells(a: Board, b: Board)
    requires a.Equals(b)
    ensures a.State().Cells() == b.State().Cells()
    ensures forall x, y :: OnBoard(x, y) ==> a.GetColor(x, y) == b.GetColor(x, y)
  {
  }
}
