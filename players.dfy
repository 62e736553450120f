/**
 * The players of Lib/AbstractPlayer.cs, Lib/PlayerHuman.cs,
 * Lib/PlayerRandom.cs and Lib/PlayerAI.cs. A player is a colour and a way
 * of choosing a move; the random generator of PlayerRandom is a parameter
 * `chosen`, the index its Next(Count) would have drawn.
 */
module Players {
  import opened Geometry
  import opened Rules
  import opened States
  import opened Boards
  import opened Evaluation
  import opened Minimax

  /** The three kinds of AbstractPlayer, each with its readonly Color. */
  datatype Player = Human(color: Color) | Random(color: Color) | AI(color: Color, params: AIParameters)
  {
    /** IsComputer: false for the human placeholder, true for the other two. */
    predicate IsComputer() {
      !Human?
    }
  }

  /** What the caller of GetMove must supply: a draw below the move count, and a colour to search for. */
  predicate CanMove(pl: Player, s: BoardState, chosen: nat) {
    (pl.Random? ==> |ValidMoves(s.Cells(), pl.color)| == 0 || chosen < |ValidMoves(s.Cells(), pl.color)|) &&
    (pl.AI? ==> pl.color != None)
  }

  /** The move GetMove returns on a board in state s: the sentinel or a square of the board. */
  ghost function Chosen(pl: Player, s: BoardState, chosen: nat): (m: Square)
    requires CanMove(pl, s, chosen)
    ensures m == NoMove || OnBoard(m.x, m.y)
  {
    match pl
    case Human(_) => NoMove
    case Random(c) =>
      var moves := ValidMoves(s.Cells(), c);
      if |moves| == 0 then NoMove
      else
        ListedMove(s, c, chosen);
        moves[chosen]
    case AI(c, p) =>
      SearchMove(p, s, c, DefaultDepth, -1.0 * LargeNum, LargeNum);
      Search(p, s, c, DefaultDepth, -1.0 * LargeNum, LargeNum).move
  }

  /**
   * A computer player with a legal move at hand plays a legal move or the
   * sentinel; the random player always plays one.
   */
  lemma ChosenLegal(pl: Player, s: BoardState, chosen: nat)
    requires CanMove(pl, s, chosen) && pl.IsComputer()
    requires |ValidMoves(s.Cells(), pl.color)| > 0
    ensures var m := Chosen(pl, s, chosen);
      (m == NoMove && pl.AI?) || (OnBoard(m.x, m.y) && Legal(s.Cells(), m.x, m.y, pl.color))
  {
    var m := Chosen(pl, s, chosen);
    var g := s.Cells();
    if pl.AI? {
      SearchMove(pl.params, s, pl.color, DefaultDepth, -1.0 * LargeNum, LargeNum);
    } else {
      ListedMove(s, pl.color, chosen);
    }
    if m != NoMove {
      assert m in ValidMoves(g, pl.color);
      ValidMovesSpec(g, pl.color);
    }
  }

  /**
   * PlayerRandom.GetMove: the sentinel when there is no move; otherwise
   * walk `chosen` links from the head of the move list and return that move.
   */
  method RandomMove(b: Board, c: Color, chosen: nat) returns (move: Square)
    requires |ValidMoves(b.State().Cells(), c)| == 0 || chosen < |ValidMoves(b.State().Cells(), c)|
    ensures move == Chosen(Random(c), b.State(), chosen)
    ensures move == NoMove <==> |ValidMoves(b.State().Cells(), c)| == 0
    ensures move != NoMove ==> move in ValidMoves(b.State().Cells(), c)
  {
    var moves := b.GetValidMoves(c);
    if |moves| == 0 {
      return NoMove;
    }
    var f := moves;
    for i := 0 to chosen
      invariant f == moves[i..]
    {
      f := f[1..];
    }
    move := f[0];
    ListedMove(b.State(), c, chosen);
  }

  /**
   * AbstractPlayer.GetMove, dispatched on the kind of player: the human
   * placeholder returns the sentinel, the random player a drawn legal move,
   * the AI player the move of its search. The board is left as it was.
   */
  method GetMove(pl: Player, b: Board, chosen: nat) returns (move: Square)
    requires CanMove(pl, b.State(), chosen)
    modifies b
    ensures b.State() == old(b.State())
    ensures move == Chosen(pl, old(b.State()), chosen)
    ensures move == NoMove || OnBoard(move.x, move.y)
  {
    match pl
    case Human(_) =>
      move := NoMove;
    case Random(c) =>
      move := RandomMove(b, c, chosen);
    case AI(c, p) =>
      move := GetBestMove(p, b, c);
  }
}
