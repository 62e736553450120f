/**
 * The depth-limited alpha-beta search of Lib/PlayerAI.cs (class MinimaxAB).
 * Black minimises the score and White maximises it. The ghost functions
 * Search and Children say what _Explore returns on a board state; the
 * methods Explore and SearchChildren compute it on a Board object with the
 * scratch copy `running` (play a move, search, restore) as the source does.
 */
module Minimax {
  import opened Geometry
  import opened Rules
  import opened States
  import opened Boards
  import opened Evaluation

  /** MoveScorePair, as a value: each returned pair is fresh, so the aliasing of the source is harmless. */
  datatype MoveScore = MoveScore(move: Square, score: real)

  /** DEFAULT_DEPTH. */
  const DefaultDepth: nat := 5

  /** LARGE_NUM: double.MaxValue / 1024, that is (2^53 - 1) * 2^961, exactly. */
  const LargeNum: real := 175555970201398018373561937237992535935615788599458004491130348440583262480496619883388240852311404464394979446791389125228829420790492365984831588577673356431689365797413361402583486416395829046949090340288216740531819567288303660318172421222776707299607252152485081219470876153241503790283597681820434432.0

  /**
   * C#'s integer division, which truncates toward zero: the remainder
   * a - q * b has the sign of a and is smaller than b in size.
   */
  function TruncDiv(a: int, b: int): (q: int)
    requires b > 0
    ensures a >= 0 ==> q * b <= a < q * b + b
    ensures a < 0 ==> q * b - b < a <= q * b
  {
    if a >= 0 then a / b else -((-a) / b)
  }

  /** Truncation is symmetric about zero, unlike Dafny's Euclidean division: negating a negates the quotient. */
  lemma TruncDivNegate(a: int, b: int)
    requires b > 0
    ensures TruncDiv(-a, b) == -TruncDiv(a, b)
  {
  }

  // ---------------------------------------------------------------------
  // Node scores
  // ---------------------------------------------------------------------

  /**
   * The score of a game-over node: zero on a tie, otherwise half of
   * LARGE_NUM times (margin / 64 + 1) for the winner, negated for Black.
   * Its sign names the winner.
   */
  function TerminalScore(s: BoardState): (r: real)
    ensures r == 0.0 <==> Winner(s) == None
    ensures r < 0.0 <==> Winner(s) == Black
    ensures r > 0.0 <==> Winner(s) == White
  {
    var diff := TotalCount(s, White) - TotalCount(s, Black);
    if Winner(s) == None then 0.0
    else if Winner(s) == Black then -1.0 * LargeNum / 2.0 * (TruncDiv(-diff, 64) + 1) as real
    else LargeNum / 2.0 * (TruncDiv(diff, 64) + 1) as real
  }

  /**
   * On a consistent board a win scores half of LARGE_NUM, and the whole of
   * it when the winner holds all 64 squares (the integer division reaches 1
   * only at a margin of 64).
   */
  lemma TerminalValues(s: BoardState)
    requires Consistent(s)
    ensures Winner(s) == White ==>
              TerminalScore(s) == if Count(s.Cells(), White) == 64 then LargeNum else LargeNum / 2.0
    ensures Winner(s) == Black ==>
              TerminalScore(s) == if Count(s.Cells(), Black) == 64 then -LargeNum else -LargeNum / 2.0
  {
    var g := s.Cells();
    CountPartition(g);
    var diff := TotalCount(s, White) - TotalCount(s, Black);
    assert diff == Count(g, White) - Count(g, Black);
    if Winner(s) == White {
      assert 0 < diff <= 64;
      assert TruncDiv(diff, 64) == if diff == 64 then 1 else 0;
    } else if Winner(s) == Black {
      assert 0 < -diff <= 64;
      assert TruncDiv(-diff, 64) == if diff == -64 then 1 else 0;
    }
  }

  /** What GetScore returns for colour c on the board: its features weighted at the move number. */
  ghost function Features(p: AIParameters, s: BoardState, c: Color): real {
    Score(p, MoveNumber(s), TotalCount(s, c), |ValidMoves(s.Cells(), c)|, StableCount(Refresh(s), c))
  }

  /**
   * The score of a depth-0 node for the side c to move: its own features
   * with the sign of c, minus the opponent's. Stable counts are read after
   * the first GetStableCount has refreshed the cache. For either colour it is
   * White's features minus Black's.
   */
  ghost function LeafScore(p: AIParameters, s: BoardState, c: Color): (r: real)
    ensures c != None ==> r == Features(p, s, White) - Features(p, s, Black)
  {
    var sign := if c == Black then -1.0 else 1.0;
    sign * Features(p, s, c) + -sign * Features(p, s, Opposing(c))
  }

  // ---------------------------------------------------------------------
  // The search, on values
  // ---------------------------------------------------------------------

  /** A move of c's list is on the board and empty: playing it fills one square. */
  lemma ListedMove(s: BoardState, c: Color, k: int)
    requires 0 <= k < |ValidMoves(s.Cells(), c)|
    ensures var m := ValidMoves(s.Cells(), c)[k];
      OnBoard(m.x, m.y) && Cell(s.Cells(), m.x, m.y) == None
  {
    ValidMovesSpec(s.Cells(), c);
    assert ValidMoves(s.Cells(), c)[k] in ValidMoves(s.Cells(), c);
  }

  /** A listed move is a square of the board. */
  lemma ListedOnBoard(s: BoardState, c: Color, m: Square)
    requires m in ValidMoves(s.Cells(), c)
    ensures OnBoard(m.x, m.y)
  {
    ValidMovesSpec(s.Cells(), c);
  }

  /** When the game is not over, a side without moves faces an opponent with some. */
  lemma PassHasReply(s: BoardState, c: Color)
    requires c != None && !GameOver(s.Cells()) && |ValidMoves(s.Cells(), c)| == 0
    ensures |ValidMoves(s.Cells(), Opposing(c))| > 0
  {
  }

  /**
   * _Explore(p, b, c, depth, alpha, beta) on a board in state s: a game-over
   * node and a depth-0 node return the sentinel move with their score, any
   * other node runs its loop (Inner).
   */
  ghost function Search(p: AIParameters, s: BoardState, c: Color, depth: nat, alpha: real, beta: real): MoveScore
    requires c != None
    decreases Empties(s.Cells()), if |ValidMoves(s.Cells(), c)| == 0 then 2 else 1, 2
  {
    if GameOver(s.Cells()) then MoveScore(NoMove, TerminalScore(s))
    else if depth == 0 then MoveScore(NoMove, LeafScore(p, s, c))
    else Inner(p, s, c, depth, alpha, beta)
  }

  /**
   * A node that is neither over nor at depth 0: the loop over c's moves from
   * the starting best. A node with at most two moves searches its children
   * at its own depth when depth < DEFAULT_DEPTH - 2, otherwise one level less.
   */
  ghost function Inner(p: AIParameters, s: BoardState, c: Color, depth: nat, alpha: real, beta: real): MoveScore
    requires c != None && !GameOver(s.Cells()) && depth >= 1
    decreases Empties(s.Cells()), if |ValidMoves(s.Cells(), c)| == 0 then 2 else 1, 1
  {
    var moves := ValidMoves(s.Cells(), c);
    Children(p, s, c, 0, Extended(depth, |moves|) - 1, alpha, beta, StartBest(p, s, c, depth, alpha, beta))
  }

  /** Search unfolded at a node that is neither over nor at depth 0. */
  lemma InnerUnfold(p: AIParameters, s: BoardState, c: Color, depth: nat, alpha: real, beta: real)
    requires c != None && !GameOver(s.Cells()) && depth >= 1
    ensures Inner(p, s, c, depth, alpha, beta) ==
            Children(p, s, c, 0, Extended(depth, |ValidMoves(s.Cells(), c)|) - 1, alpha, beta, StartBest(p, s, c, depth, alpha, beta))
  {
  }

  /**
   * The best a node starts from: a side without moves passes, and the
   * opponent's search at the same depth is taken as it is; otherwise the
   * losing score with the sentinel move.
   */
  ghost function StartBest(p: AIParameters, s: BoardState, c: Color, depth: nat, alpha: real, beta: real): MoveScore
    requires c != None && !GameOver(s.Cells())
    decreases Empties(s.Cells()), if |ValidMoves(s.Cells(), c)| == 0 then 2 else 1, 0
  {
    if |ValidMoves(s.Cells(), c)| == 0 then
      PassHasReply(s, c);
      Search(p, s, Opposing(c), depth, alpha, beta)
    else MoveScore(NoMove, Losing(c))
  }

  /** The depth a node's children get one more level of: at most two moves and depth < DEFAULT_DEPTH - 2. */
  function Extended(depth: nat, count: nat): (d: nat)
    ensures depth <= d <= depth + 1
    ensures d == depth + 1 <==> count <= 2 && depth < DefaultDepth - 2
  {
    if count <= 2 && depth < DefaultDepth - 2 then depth + 1 else depth
  }

  /** The initial best score of a node with moves: the worst score for c. */
  function Losing(c: Color): (r: real)
    requires c != None
    ensures c == Black ==> r > 0.0
    ensures c == White ==> r < 0.0
  {
    if c == Black then LargeNum else -1.0 * LargeNum
  }

  /**
   * The foreach loop of _Explore from the k-th move on, with the window
   * (alpha, beta) and the best pair so far. A child replaces the best only
   * when it is strictly better for c, White raises alpha and Black lowers
   * beta to the best score, and the loop stops once alpha >= beta.
   */
  ghost function Children(p: AIParameters, s: BoardState, c: Color, k: nat, depth: nat,
                          alpha: real, beta: real, best: MoveScore): MoveScore
    requires c != None && k <= |ValidMoves(s.Cells(), c)|
    decreases Empties(s.Cells()), 0, |ValidMoves(s.Cells(), c)| - k
  {
    var moves := ValidMoves(s.Cells(), c);
    if k == |moves| then best
    else
      var best' := Keep(c, best, moves[k], ChildScore(p, s, c, k, depth, alpha, beta));
      var alpha' := Raise(c, alpha, best'.score);
      var beta' := Lower(c, beta, best'.score);
      if alpha' >= beta' then best'
      else Children(p, s, c, k + 1, depth, alpha', beta', best')
  }

  /**
   * The comparison of the loop: the child (m, score) replaces the best pair
   * only when its score is strictly better for c, so of equal scores the
   * earlier move stays.
   */
  function Keep(c: Color, best: MoveScore, m: Square, score: real): (r: MoveScore)
    ensures r == best || r == MoveScore(m, score)
    ensures c == White ==> r.score == if score > best.score then score else best.score
    ensures c != White ==> r.score == if score < best.score then score else best.score
    ensures (if c == White then score <= best.score else score >= best.score) ==> r == best
  {
    var better := if c == White then best.score < score else best.score > score;
    if better then MoveScore(m, score) else best
  }

  /** White's update of alpha: it only rises, to the best score. */
  function Raise(c: Color, alpha: real, score: real): (r: real)
    ensures r >= alpha
    ensures c != White ==> r == alpha
    ensures c == White ==> r == if score > alpha then score else alpha
  {
    if c == White && score > alpha then score else alpha
  }

  /** Black's update of beta: it only falls, to the best score. */
  function Lower(c: Color, beta: real, score: real): (r: real)
    ensures r <= beta
    ensures c == White ==> r == beta
    ensures c != White ==> r == if score < beta then score else beta
  {
    if c != White && score < beta then score else beta
  }

  /** One round of the loop, given the score of the k-th child. */
  lemma ChildrenStep(p: AIParameters, s: BoardState, c: Color, k: nat, depth: nat,
                     alpha: real, beta: real, best: MoveScore, score: real)
    requires c != None && k < |ValidMoves(s.Cells(), c)|
    requires score == ChildScore(p, s, c, k, depth, alpha, beta)
    ensures var best' := Keep(c, best, ValidMoves(s.Cells(), c)[k], score);
      var alpha' := Raise(c, alpha, best'.score);
      var beta' := Lower(c, beta, best'.score);
      Children(p, s, c, k, depth, alpha, beta, best) ==
      if alpha' >= beta' then best' else Children(p, s, c, k + 1, depth, alpha', beta', best')
  {
  }

  /**
   * The loop returns the best pair it started from, or the pair of a later
   * move of the list with the score its child search returned, strictly
   * better for c: a tie never displaces the earlier move, and the score
   * returned is always one that was searched.
   */
  lemma {:induction false} ChildrenResult(p: AIParameters, s: BoardState, c: Color, k: nat, depth: nat,
                                          alpha: real, beta: real, best: MoveScore)
    requires c != None && k <= |ValidMoves(s.Cells(), c)|
    ensures var moves := ValidMoves(s.Cells(), c);
      var r := Children(p, s, c, k, depth, alpha, beta, best);
      r == best ||
      ((if c == White then r.score > best.score else r.score < best.score) &&
       r.move in moves[k..] &&
       exists j, a, b :: k <= j < |moves| && r == MoveScore(moves[j], ChildScore(p, s, c, j, depth, a, b)))
    decreases |ValidMoves(s.Cells(), c)| - k
  {
    var moves := ValidMoves(s.Cells(), c);
    if k < |moves| {
      var child := ChildScore(p, s, c, k, depth, alpha, beta);
      var best' := Keep(c, best, moves[k], child);
      var alpha' := Raise(c, alpha, best'.score);
      var beta' := Lower(c, beta, best'.score);
      assert Children(p, s, c, k, depth, alpha, beta, best) ==
        if alpha' >= beta' then best' else Children(p, s, c, k + 1, depth, alpha', beta', best');
      if best' != best {
        assert moves[k..][0] == moves[k];
        assert k <= k < |moves| && best' == MoveScore(moves[k], ChildScore(p, s, c, k, depth, alpha, beta));
        assert if c == White then best'.score > best.score else best'.score < best.score;
        assert best'.move in moves[k..];
        assert exists j, a, b :: k <= j < |moves| && best' == MoveScore(moves[j], ChildScore(p, s, c, j, depth, a, b));
      }
      if alpha' < beta' {
        ChildrenResult(p, s, c, k + 1, depth, alpha', beta', best');
        assert moves[k + 1..] == moves[k..][1..];
        var r := Children(p, s, c, k + 1, depth, alpha', beta', best');
        if r != best' {
          var j, a, b :| k + 1 <= j < |moves| && r == MoveScore(moves[j], ChildScore(p, s, c, j, depth, a, b));
          assert k <= j;
        }
      }
    }
  }

  /** The score of the k-th child, searched with the window in force when the loop reaches it. */
  ghost function ChildScore(p: AIParameters, s: BoardState, c: Color, k: nat, depth: nat, alpha: real, beta: real): real
    requires c != None && k < |ValidMoves(s.Cells(), c)|
    decreases Empties(s.Cells()), 0, 0
  {
    var m := ValidMoves(s.Cells(), c)[k];
    ListedMove(s, c, k);
    PlayMoveEmpties(s, m.x, m.y, c);
    Search(p, PlayMove(s, m.x, m.y, c), Opposing(c), depth, alpha, beta).score
  }

  /**
   * A child the loop evaluates never beats the node's result: White's result
   * is at least, and Black's at most, the score of every child searched,
   * and at least as good as the initial best.
   */
  lemma ChildrenBound(p: AIParameters, s: BoardState, c: Color, k: nat, depth: nat,
                      alpha: real, beta: real, best: MoveScore)
    requires c != None && k < |ValidMoves(s.Cells(), c)|
    ensures var r := Children(p, s, c, k, depth, alpha, beta, best);
      var child := ChildScore(p, s, c, k, depth, alpha, beta);
      if c == White then r.score >= child && r.score >= best.score
      else r.score <= child && r.score <= best.score
  {
    var moves := ValidMoves(s.Cells(), c);
    var best' := Keep(c, best, moves[k], ChildScore(p, s, c, k, depth, alpha, beta));
    var alpha' := Raise(c, alpha, best'.score);
    var beta' := Lower(c, beta, best'.score);
    if alpha' < beta' {
      ChildrenResult(p, s, c, k + 1, depth, alpha', beta', best');
    }
  }

  /**
   * Every move a search returns is the sentinel or a square of the board,
   * and a side with moves gets the sentinel or one of its own moves. (A side
   * without moves gets the opponent's move.)
   */
  lemma {:induction false} SearchMove(p: AIParameters, s: BoardState, c: Color, depth: nat, alpha: real, beta: real)
    requires c != None
    ensures var r := Search(p, s, c, depth, alpha, beta);
      (r.move == NoMove || OnBoard(r.move.x, r.move.y)) &&
      (|ValidMoves(s.Cells(), c)| > 0 ==> r.move == NoMove || r.move in ValidMoves(s.Cells(), c))
    decreases Empties(s.Cells()), if |ValidMoves(s.Cells(), c)| == 0 then 2 else 1
  {
    if !GameOver(s.Cells()) && depth >= 1 {
      var moves := ValidMoves(s.Cells(), c);
      var start := StartBest(p, s, c, depth, alpha, beta);
      if |moves| == 0 {
        PassHasReply(s, c);
        SearchMove(p, s, Opposing(c), depth, alpha, beta);
      }
      assert Search(p, s, c, depth, alpha, beta) == Inner(p, s, c, depth, alpha, beta);
      InnerUnfold(p, s, c, depth, alpha, beta);
      ChildrenResult(p, s, c, 0, Extended(depth, |moves|) - 1, alpha, beta, start);
      var r := Search(p, s, c, depth, alpha, beta);
      if r != start {
        assert moves[0..] == moves;
        ListedOnBoard(s, c, r.move);
      }
    }
  }

  /** A side without moves, when the game is not over, returns the opponent's search: its move and score. */
  lemma PassReturnsOpponent(p: AIParameters, s: BoardState, c: Color, depth: nat, alpha: real, beta: real)
    requires c != None && !GameOver(s.Cells()) && |ValidMoves(s.Cells(), c)| == 0 && depth >= 1
    ensures Search(p, s, c, depth, alpha, beta) == Search(p, s, Opposing(c), depth, alpha, beta)
  {
    assert Search(p, s, c, depth, alpha, beta) == Inner(p, s, c, depth, alpha, beta);
    InnerUnfold(p, s, c, depth, alpha, beta);
  }

  /** A node with moves returns the sentinel only with the losing score it starts from: no child beat it. */
  lemma SentinelMeansNoBetterChild(p: AIParameters, s: BoardState, c: Color, depth: nat, alpha: real, beta: real)
    requires c != None && !GameOver(s.Cells()) && |ValidMoves(s.Cells(), c)| > 0 && depth >= 1
    ensures var r := Search(p, s, c, depth, alpha, beta);
      r.move == NoMove ==> r.score == Losing(c)
  {
    var moves := ValidMoves(s.Cells(), c);
    assert Search(p, s, c, depth, alpha, beta) == Inner(p, s, c, depth, alpha, beta);
    InnerUnfold(p, s, c, depth, alpha, beta);
    var start := MoveScore(NoMove, Losing(c));
    assert StartBest(p, s, c, depth, alpha, beta) == start;
    ChildrenResult(p, s, c, 0, Extended(depth, |moves|) - 1, alpha, beta, start);
    var r := Search(p, s, c, depth, alpha, beta);
    if r != start {
      assert moves[0..] == moves;
      ListedOnBoard(s, c, r.move);
    }
  }

  // ---------------------------------------------------------------------
  // The search, on a Board
  // ---------------------------------------------------------------------

  /** The game-over branch of _Explore. */
  method Terminal(b: Board) returns (best: MoveScore)
    ensures best == MoveScore(NoMove, TerminalScore(b.State()))
  {
    var diff := b.GetTotalCount(White) - b.GetTotalCount(Black);
    if b.GetWinner() == None {
      best := MoveScore(NoMove, 0.0);
    } else if b.GetWinner() == Black {
      best := MoveScore(NoMove, -1.0 * LargeNum / 2.0 * (TruncDiv(-diff, 64) + 1) as real);
    } else {
      best := MoveScore(NoMove, LargeNum / 2.0 * (TruncDiv(diff, 64) + 1) as real);
    }
  }

  /** The depth-0 branch of _Explore: the first GetStableCount refreshes the board's stability cache. */
  method Leaf(p: AIParameters, b: Board, c: Color) returns (best: MoveScore)
    modifies b
    ensures best == MoveScore(NoMove, LeafScore(p, old(b.State()), c))
    ensures b.State() == Refresh(old(b.State()))
  {
    ghost var s := b.State();
    var colorSign := if c == Black then -1.0 else 1.0;
    var c2 := Opposing(c);
    var moveNumber := b.GetMoveNumber();
    var total := b.GetTotalCount(c);
    var mobility := b.GetMoveCount(c);
    var stability := b.GetStableCount(c);
    var score := GetScore(p, moveNumber, total, mobility, stability);
    score := colorSign * score;
    RefreshFacts(s);
    RefreshIdempotent(s);
    moveNumber := b.GetMoveNumber();
    total := b.GetTotalCount(c2);
    mobility := b.GetMoveCount(c2);
    stability := b.GetStableCount(c2);
    var other := GetScore(p, moveNumber, total, mobility, stability);
    score := score + -colorSign * other;
    best := MoveScore(NoMove, score);
  }

  /**
   * _Explore on a Board. The caller's board is left as it was, except that
   * a depth-0 node refreshes its stability cache (which changes no square
   * and no total).
   */
  method Explore(p: AIParameters, b: Board, c: Color, depth: nat, alpha: real, beta: real) returns (best: MoveScore)
    requires c != None
    modifies b
    ensures best == Search(p, old(b.State()), c, depth, alpha, beta)
    ensures b.State() == if !GameOver(old(b.State()).Cells()) && depth == 0 then Refresh(old(b.State())) else old(b.State())
    decreases Empties(b.State().Cells()), if |ValidMoves(b.State().Cells(), c)| == 0 then 2 else 1, 2
  {
    var over := b.IsGameOver();
    if over {
      best := Terminal(b);
    } else if depth == 0 {
      best := Leaf(p, b, c);
    } else {
      best := Expand(p, b, c, depth, alpha, beta, b.State());
    }
  }

  /** A node of _Explore that is neither over nor at depth 0: the pass, the depth extension and the loop. */
  method Expand(p: AIParameters, b: Board, c: Color, depth: nat, alpha: real, beta: real, ghost s: BoardState)
    returns (best: MoveScore)
    requires c != None && s == b.State() && !GameOver(s.Cells()) && depth >= 1
    ensures best == Inner(p, s, c, depth, alpha, beta)
    decreases Empties(s.Cells()), if |ValidMoves(s.Cells(), c)| == 0 then 2 else 1, 1
  {
    best := MoveScore(NoMove, if c == Black then LargeNum else -1.0 * LargeNum);
    var moves := b.GetValidMoves(c);
    var running := new Board.Copy(b);
    if |moves| == 0 {
      best := Pass(p, running, c, depth, alpha, beta, s);
    }
    var d := depth;
    if |moves| <= 2 && d < DefaultDepth - 2 {
      d := d + 1;
    }
    assert best == StartBest(p, s, c, depth, alpha, beta);
    assert d - 1 == Extended(depth, |ValidMoves(s.Cells(), c)|) - 1;
    best := SearchChildren(p, b, running, c, moves, d - 1, alpha, beta, best, s);
    InnerUnfold(p, s, c, depth, alpha, beta);
  }

  /** A side without moves: the opponent is searched on the copy at the same depth, which leaves the copy as it was. */
  method Pass(p: AIParameters, running: Board, c: Color, depth: nat, alpha: real, beta: real, ghost s: BoardState)
    returns (best: MoveScore)
    requires c != None && s == running.State() && !GameOver(s.Cells()) && depth >= 1
    requires |ValidMoves(s.Cells(), c)| == 0
    modifies running
    ensures best == StartBest(p, s, c, depth, alpha, beta)
    ensures running.State() == s
    decreases Empties(s.Cells()), 2, 0
  {
    PassHasReply(s, c);
    best := Explore(p, running, Opposing(c), depth, alpha, beta);
  }

  /** The foreach loop of _Explore: each move is played on `running`, searched, and undone with LoadFrom(b). */
  method SearchChildren(p: AIParameters, b: Board, running: Board, c: Color, moves: seq<Square>,
                        depth: nat, alpha: real, beta: real, best0: MoveScore, ghost s: BoardState)
    returns (best: MoveScore)
    requires c != None && running != b && s == b.State()
    requires moves == ValidMoves(s.Cells(), c) && running.State() == s
    modifies running
    ensures best == Children(p, s, c, 0, depth, alpha, beta, best0)
    ensures running.State() == s
    decreases Empties(s.Cells()), 0, 1
  {
    best := best0;
    var a, z := alpha, beta;
    var k := 0;
    while k < |moves|
      invariant 0 <= k <= |moves|
      invariant running.State() == s
      invariant Children(p, s, c, k, depth, a, z, best) == Children(p, s, c, 0, depth, alpha, beta, best0)
      decreases |moves| - k
    {
      best, a, z := Visit(p, b, running, c, moves, k, depth, a, z, best, s);
      if a >= z {
        return;
      }
      k := k + 1;
    }
  }

  /**
   * One round of the foreach loop: play the k-th move on `running`, search
   * the child, restore `running` from b, keep the child if it is strictly
   * better for c, and move c's bound of the window.
   */
  method Visit(p: AIParameters, b: Board, running: Board, c: Color, moves: seq<Square>, k: nat,
               depth: nat, alpha: real, beta: real, best: MoveScore, ghost s: BoardState)
    returns (best': MoveScore, alpha': real, beta': real)
    requires c != None && running != b && s == b.State()
    requires moves == ValidMoves(s.Cells(), c) && running.State() == s && k < |moves|
    modifies running
    ensures Children(p, s, c, k, depth, alpha, beta, best) ==
            if alpha' >= beta' then best' else Children(p, s, c, k + 1, depth, alpha', beta', best')
    ensures running.State() == s
    decreases Empties(s.Cells()), 0, 0
  {
    var square := moves[k];
    assert OnBoard(square.x, square.y) && Cell(s.Cells(), square.x, square.y) == None by {
      ListedMove(s, c, k);
    }
    running.PlayMove(square.x, square.y, c);
    PlayMoveEmpties(s, square.x, square.y, c);
    var child := Explore(p, running, Opposing(c), depth, alpha, beta);
    running.LoadFrom(b);
    ChildrenStep(p, s, c, k, depth, alpha, beta, best, child.score);
    best', alpha', beta' := best, alpha, beta;
    if c == White {
      if best'.score < child.score {
        best' := MoveScore(square, child.score);
      }
      if best'.score > alpha' {
        alpha' := best'.score;
      }
    } else {
      if best'.score > child.score {
        best' := MoveScore(square, child.score);
      }
      if best'.score < beta' {
        beta' := best'.score;
      }
    }
    assert best' == Keep(c, best, square, child.score);
    assert alpha' == Raise(c, alpha, best'.score) && beta' == Lower(c, beta, best'.score);
  }

  /**
   * MinimaxAB.GetBestMove: the move of a depth-5 search over the whole
   * window. The board is left unchanged, and the move is the sentinel or a
   * square of the board; when c has moves, it is the sentinel or one of them.
   */
  method GetBestMove(p: AIParameters, b: Board, c: Color) returns (move: Square)
    requires c != None
    modifies b
    ensures move == Search(p, old(b.State()), c, DefaultDepth, -1.0 * LargeNum, LargeNum).move
    ensures b.State() == old(b.State())
    ensures move == NoMove || OnBoard(move.x, move.y)
    ensures |ValidMoves(old(b.State()).Cells(), c)| > 0 ==> move == NoMove || move in ValidMoves(old(b.State()).Cells(), c)
  {
    ghost var s := b.State();
    var best := Explore(p, b, c, DefaultDepth, -1.0 * LargeNum, LargeNum);
    move := best.move;
    SearchMove(p, s, c, DefaultDepth, -1.0 * LargeNum, LargeNum);
  }
}
