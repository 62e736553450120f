/**
 * The Game class of Lib/Game.cs: a board, the two players and the colour
 * whose turn it is. A turn always hands the move to the other colour, and
 * the board changes only by a move its player was allowed to make.
 */
module Games {
  import opened Geometry
  import opened Rules
  import opened States
  import opened Boards
  import opened Players

  class Game {
    var board: Board
    var black: Player
    var white: Player
    var turn: Color

    /** The board's fields agree with its discs, and some colour is to move. */
    ghost predicate Valid()
      reads this, board
    {
      Consistent(board.State()) && turn != None
    }

    /** The player whose turn it is: Black's on Black, White's otherwise. */
    function Mover(): Player
      reads this
    {
      if turn == Black then black else white
    }

    /** The guard of RunAITurn: the colour to move belongs to a computer player. */
    predicate ComputerTurn()
      reads this
    {
      (turn == Black && black.IsComputer()) || (turn == White && white.IsComputer())
    }

    /** new Game(b, w): a fresh initial board, Black to move. */
    constructor (b: Player, w: Player)
      ensures fresh(board) && board.State() == Initial()
      ensures black == b && white == w && turn == Black
      ensures Valid()
    {
      board := new Board();
      black := b;
      white := w;
      turn := Black;
      new;
      var blank := Blank();
      InitialFacts(blank);
    }

    /** GetValidMoves: the moves of the colour to move. */
    method GetValidMoves() returns (moves: seq<Square>)
      ensures moves == ValidMoves(board.State().Cells(), turn)
    {
      moves := board.GetValidMoves(turn);
    }

    /**
     * RunHumanTurn(s): the turn passes to the other colour whatever s is;
     * the mover's disc goes on s exactly when s is one of its legal moves.
     */
    method RunHumanTurn(s: Square) returns (played: bool)
      modifies this, board
      ensures board == old(board) && black == old(black) && white == old(white)
      ensures turn == Opposing(old(turn))
      ensures played <==> s in ValidMoves(old(board.State()).Cells(), old(Mover()).color)
      ensures played ==> OnBoard(s.x, s.y) && Legal(old(board.State()).Cells(), s.x, s.y, old(Mover()).color)
      ensures played ==> board.State() == States.PlayMove(old(board.State()), s.x, s.y, old(Mover()).color)
      ensures !played ==> board.State() == old(board.State())
      ensures old(Valid()) ==> Valid()
    {
      var player := Mover();
      turn := Opposing(turn);
      var moves := board.GetValidMoves(player.color);
      if s in moves {
        ValidMovesSpec(board.State().Cells(), player.color);
        if Consistent(board.State()) {
          PlayMoveConsistent(board.State(), s.x, s.y, player.color);
        }
        board.PlayMove(s.x, s.y, player.color);
        return true;
      }
      return false;
    }

    /**
     * RunAITurn: nothing happens unless the colour to move is a computer's.
     * Otherwise the turn passes to the other colour and the player's move
     * is played unless it is the sentinel (x == -1).
     */
    method RunAITurn(chosen: nat) returns (played: bool)
      requires ComputerTurn() ==> CanMove(Mover(), board.State(), chosen)
      modifies this, board
      ensures board == old(board) && black == old(black) && white == old(white)
      ensures !old(ComputerTurn()) ==> !played && turn == old(turn) && board.State() == old(board.State())
      ensures old(ComputerTurn()) ==> turn == Opposing(old(turn))
      ensures old(ComputerTurn()) ==>
        var m := Chosen(old(Mover()), old(board.State()), chosen);
        (played <==> m.x != -1) &&
        board.State() == if played then States.PlayMove(old(board.State()), m.x, m.y, old(Mover()).color) else old(board.State())
      ensures old(Valid()) ==> Valid()
    {
      var player := Mover();
      if ComputerTurn() {
        turn := Opposing(turn);
        ghost var s := board.State();
        var move := GetMove(player, board, chosen);
        if move.x != -1 {
          if Consistent(s) {
            PlayMoveConsistent(s, move.x, move.y, player.color);
          }
          board.PlayMove(move.x, move.y, player.color);
          return true;
        }
      }
      return false;
    }

    /** GetWinnerString: "Tie" on equal totals, otherwise the colour with the larger total. */
    function GetWinnerString(): (r: string)
      reads this, board
      ensures r == "Tie" <==> board.State().bTotal == board.State().wTotal
      ensures r == "Black" <==> board.State().bTotal > board.State().wTotal
      ensures r == "White" <==> board.State().bTotal < board.State().wTotal
    {
      if board.GetWinner() == None then "Tie" else if board.GetWinner() == Black then "Black" else "White"
    }

    /** IsGameOver: neither colour has a legal move. */
    method IsGameOver() returns (over: bool)
      ensures over <==> ValidMoves(board.State().Cells(), Black) == [] && ValidMoves(board.State().Cells(), White) == []
    {
      over := board.IsGameOver();
    }
  }

  /** On a consistent board the winner string names the colour with more discs, or a tie. */
  lemma WinnerStringByDiscs(game: Game)
    requires game.Valid()
    ensures var g := game.board.State().Cells();
      (game.GetWinnerString() == "Tie" <==> Count(g, Black) == Count(g, White)) &&
      (game.GetWinnerString() == "Black" <==> Count(g, Black) > Count(g, White)) &&
      (game.GetWinnerString() == "White" <==> Count(g, Black) < Count(g, White))
  {
    WinnerByDiscs(game.board.State());
  }
}
