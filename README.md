# OthelloNET engine in Dafny

This project models the engine of OthelloNET, a C# Othello (Reversi) program, and proves properties of that model. It covers four parts:

- **Board** (`Lib/Board.cs`): an 8×8 board held in 64-bit masks plus cached counters. It provides legal-move generation, the list of discs a move turns over, move application with incremental counters, a lazily recomputed set of stable discs, game over and winner.
- **AI player** (`Lib/PlayerAI.cs`): a depth-limited alpha-beta search with a scratch board copy, a pass rule and a depth extension for narrow nodes. Leaves are scored by a polynomial-weighted evaluator (`AIParameters`).
- **Game** (`Lib/Game.cs`): the turn loop that validates and applies human and computer moves.
- **Players** (`Lib/PlayerRandom.cs`, `Lib/PlayerHuman.cs`, `Lib/AbstractPlayer.cs`): a random player, a human placeholder and the player base type.

Modules, in dependency order:

| file | module | contents |
|---|---|---|
| geometry.dfy | Geometry | `Color`, `Square`, the direction table, on-board and opponent tests, `GetOpposingColor` |
| masks.dfy | Masks | the 64-bit masks as sets of bit indices, decoded to a 64-square grid |
| rules.dfy | Rules | pure specification of legal moves, captured discs, painting, counting and game over |
| stability.dfy | Stability | the stable discs as the least closed set, and the invariants of the breadth-first search |
| states.dfy | States | the eight fields of a board as a value, and what `_SetColor`, `PlayMove`, the constructor and `_CalculateStability` do to them |
| boards.dfy | Boards | `class Board`, whose fields the methods update in place; each method is proved against States, Rules and Stability |
| evaluation.dfy | Evaluation | `AIParameters`: the polynomial multipliers, `GetScore`, `FromPointsLinear` |
| search.dfy | Minimax | `_Explore` as a ghost function over board states, and the imperative search on `Board` objects proved equal to it |
| players.dfy | Players | the three kinds of player and their `GetMove` |
| games.dfy | Games | `class Game` |

Facts the model states about the code:

- The constructor presets both totals to 2 and then places two discs of each colour, so each total is always two more than its disc count. `Consistent` states this, and every mutation preserves it. `GetMoveNumber` is 4 on a new board and equals the number of discs afterwards (`States.MoveNumberIsDiscs`).
- Placing a disc on an empty square does not raise the dirty flag.
- The stable counters are never reset before a recomputation, and corners are marked but never counted.
- `GetValidMoves` builds its list with `AddFirst`, so the list is in decreasing row-major order.
- A side without moves takes the whole result of the opponent's search at the same depth, move included (`Minimax.PassReturnsOpponent`).

## Model

| member | source | states |
|---|---|---|
| Geometry.DirectionEntries | Lib/Board.cs:22-31 | `DX(d)` and `DY(d)` are entries `2d` and `2d+1` of the 16-entry direction table |
| Geometry.DirectionTable | Lib/Board.cs:22-31 | every direction of the table is a single king step |
| Geometry.OppositeDirections | Lib/Board.cs:22-31 | for d < 4, direction d + 4 is the reverse of direction d: the four axes the stability test pairs up |
| Geometry.DirectionOf | Lib/Board.cs:22-31 | the inverse of the table: a position below 8 exactly for a king step, and the table holds that step there |
| Geometry.DirectionOfTable | Lib/Board.cs:22-31 | the eight directions are distinct: DirectionOf recovers each table position |
| Geometry.IndexInjective | Lib/Board.cs:402-405 | `x * 8 + y` maps on-board squares one-to-one onto 0..63 |
| Geometry.RemainingDecreases | Lib/Board.cs:195-206 | a step along a ray from an on-board square shortens what is left of the ray, so the scanning loops end |
| Geometry.Opposing | Lib/Board.cs:116-121 | None maps to None; Black and White map to the other colour |
| Geometry.OpposingInvolutive | Lib/Board.cs:116-121 | GetOpposingColor applied twice is the identity |
| Geometry.OpponentOfOpposing | Lib/Board.cs:286-289 | for a real colour c, `_IsOpponentColor(c, t)` holds exactly when t is the opposing colour of c |
| Masks.ColorOf | Lib/Board.cs:292-296 | a square reads None exactly when its occupied bit is clear, and White exactly when both bits are set |
| Masks.Decode | Lib/Board.cs:292-296 | the masks decode to 64 squares, square i reading as `_GetColor` reads bit i |
| Masks.DecodeSetWhite | Lib/Board.cs:315-317 | setting the occupied and owner bits of i writes White into square i and nowhere else |
| Masks.DecodeSetBlack | Lib/Board.cs:315-316 | setting the occupied bit and clearing the owner bit of i writes Black into square i and nowhere else |
| Masks.DecodeClear | Lib/Board.cs:310 | clearing the occupied bit of i empties square i and nowhere else |
| Rules.MovesBelowStep | Lib/Board.cs:133-174 | the scan of GetValidMoves puts square (x, y) first exactly when it is a legal move |
| Rules.OpensBelowSome | Lib/Board.cs:143-171 | the direction loop succeeds within n directions exactly when some direction d < n opens a capture |
| Rules.OpensBelowGrows | Lib/Board.cs:143 | stopping the direction loop at the first success gives the same answer as running all eight |
| Rules.LegalSpec | Lib/Board.cs:140-170 | a square is legal exactly when it is empty and, in some table direction, the neighbour holds the other colour and the scan beyond it reaches a c disc before an empty square or the edge |
| Rules.MovesBelowSpec | Lib/Board.cs:133-174 | after the squares below index n, the list holds exactly the legal ones among them, in strictly decreasing row-major order |
| Rules.ValidMovesSpec | Lib/Board.cs:128-177 | GetValidMoves(c) holds a square exactly when it is on the board and legal for c, each once, in decreasing row-major order |
| Rules.NoMovesForNone | Lib/Board.cs:286-289 | the colour None has no legal move, as no disc is its opponent |
| Rules.GameOverSpec | Lib/Board.cs:75-79 | the game is over exactly when no square is legal for Black or for White |
| Rules.WalkColors | Lib/Board.cs:195-206 | every disc a walk captures is on the board and holds the opposing colour |
| Rules.WalkDirection | Lib/Board.cs:195-206 | every captured disc lies in the walk's direction as seen from the origin |
| Rules.WalkDistinct | Lib/Board.cs:195-206 | a walk captures no square twice |
| Rules.RayFacts | Lib/Board.cs:192-206 | the discs turned over along one step are distinct, on the board, of the other colour, and on that ray |
| Rules.RunOfFacts | Lib/Board.cs:190-206 | the discs turned over in direction d are distinct, of the other colour, and lie in direction d |
| Rules.FlipsUpToFacts | Lib/Board.cs:190-207 | the flips of the first n directions are distinct, of the other colour, and lie in directions below n |
| Rules.FlipsFacts | Lib/Board.cs:187-210 | `_GetFlips` returns distinct on-board squares of the other colour (none for None), never the origin |
| Rules.WalkCloses | Lib/Board.cs:195-206 | a walk whose earlier squares hold the other colour captures exactly when a c disc closes the ray further on, with only the other colour before it |
| Rules.WalkSpan | Lib/Board.cs:195-206 | when it captures, the walk captures exactly the squares from its start up to, not including, the closing c disc |
| Rules.RunOfExact | Lib/Board.cs:190-206 | for a real colour, direction d turns over exactly the squares flanked in direction d |
| Rules.FlipsUpToExact | Lib/Board.cs:190-207 | the first n directions turn over exactly the squares flanked in one of them |
| Rules.FlipsExact | Lib/Board.cs:187-210 | a square is in `_GetFlips(x, y, c)` if and only if c is a colour and, in some table direction, the square lies strictly before a c disc with only the other colour from the neighbour up to that disc |
| Rules.WalkBrackets | Lib/Board.cs:153-167 | for a real colour, the flip walk captures exactly when the GetValidMoves scan from the same square brackets |
| Rules.RayOpensFlips | Lib/Board.cs:149-167 | along one step, a move turns discs over exactly when the GetValidMoves test opens a capture |
| Rules.RunOfOpens | Lib/Board.cs:145-170 | direction d turns discs over exactly when it opens a capture |
| Rules.FlipsUpToOpens | Lib/Board.cs:143-171 | the first n directions turn discs over exactly when one of them opens a capture |
| Rules.LegalIffFlips | Lib/Board.cs:128-210 | the two ray casts agree: a square is legal exactly when it is empty and `_GetFlips` there is non-empty |
| Rules.PaintSpec | Lib/Board.cs:183 | painting a list of squares recolours exactly those squares |
| Rules.PaintCounts | Lib/Board.cs:183 | painting k distinct squares of one colour with another moves exactly k from one count to the other; other counts stay |
| Stability.EligibleMonotone | Lib/Board.cs:250-261 | the four-axis test only gets easier as the stable set grows |
| Stability.ClosureLeast | Lib/Board.cs:212-274 | the stable set lies inside every set closed under "occupied corner, or passes the four-axis test" |
| Stability.ClosureClosed | Lib/Board.cs:212-274 | the stable set is itself closed, hence the least closed set |
| Stability.ClosureUnique | Lib/Board.cs:212-274 | a closed set inside every closed set is the stable set |
| Stability.ClosureOccupied | Lib/Board.cs:246 | only occupied squares are stable |
| Stability.ClosureCorners | Lib/Board.cs:216-235 | every occupied corner is stable |
| Stability.ClosureEligible | Lib/Board.cs:250-262 | each non-corner stable square has, on every axis, a side that is off the board or a stable disc of its colour |
| Stability.StableDiscsAdd | Lib/Board.cs:264-266 | marking a non-corner square adds one to its colour's stable count and nothing to the other |
| Stability.StableDiscsCorner | Lib/Board.cs:216-235 | marking a corner changes no stable count |
| Stability.EligibleEmpty | Lib/Board.cs:250-261 | with nothing marked, only corners pass the four-axis test |
| Stability.EligibleAway | Lib/Board.cs:244-254 | marking a square changes the test only for its eight neighbours |
| Stability.SettledStep | Lib/Board.cs:242-270 | after all eight children of a dequeued square are handled, no unmarked occupied square passes the test against the processed squares |
| Stability.CornerSeedsQueue | Lib/Board.cs:216-235 | the seeding queues on-board squares whose indices are exactly the occupied corners |
| Stability.CornerSeedsMarks | Lib/Board.cs:216-235 | the seeded marks are exactly the occupied corners |
| Stability.Seeded | Lib/Board.cs:214-235 | after seeding, the search invariant holds with nothing processed |
| Stability.MarkSound | Lib/Board.cs:261-264 | a square the loop marks is stable |
| Stability.VisitStep | Lib/Board.cs:244-268 | visiting a child keeps the invariant, counts a marked child for its colour, and marking shrinks the unmarked set |
| Stability.ExploreStep | Lib/Board.cs:242-270 | one pass of the child loop keeps the invariant and either marks a square or changes nothing |
| Stability.ExploreDone | Lib/Board.cs:242-270 | after the eighth child, the dequeued square counts as processed |
| Stability.Dequeue | Lib/Board.cs:237-239 | dequeuing the head starts the child loop with the invariant in force |
| Stability.SearchDone | Lib/Board.cs:237-271 | when the queue is empty, the marks are exactly the stable set and each counter grew by its colour's non-corner stable discs |
| States.BoardState.ColorAt | Lib/Board.cs:292-296 | `_GetColor` reads the decoded grid |
| States.SetColorCells | Lib/Board.cs:298-339 | `_SetColor` writes c into (x, y) and leaves every other square as it was |
| States.SetColorTotals | Lib/Board.cs:298-339 | each total loses one if the old colour was its own and gains one if the new colour is |
| States.SetColorDirty | Lib/Board.cs:304-338 | the dirty flag rises on clearing or recolouring an occupied square, not on placing on an empty one, and never falls; the stable cache is untouched |
| States.SetColorConsistent | Lib/Board.cs:298-339 | `_SetColor` keeps each total equal to its disc count plus 2 |
| States.SetColorsCells | Lib/Board.cs:183 | the foreach of PlayMove paints the listed squares |
| States.SetColorsConsistent | Lib/Board.cs:183 | the foreach of PlayMove keeps the totals consistent |
| States.SetColorsDirty | Lib/Board.cs:183 | the foreach raises the flag only if it was up or the list is non-empty, and leaves the stable cache alone |
| States.PlayMoveCells | Lib/Board.cs:179-184 | PlayMove recolours (x, y) and every square of the pre-move flip list to c and leaves every other square unchanged; legality is not checked |
| States.PlayMoveConsistent | Lib/Board.cs:179-184 | PlayMove keeps each total equal to its disc count plus 2 |
| States.PlayMoveCounts | Lib/Board.cs:179-184 | on an empty target with k flips, c gains k + 1 discs, the opponent loses k, one empty square is filled; the totals follow |
| States.PlayMoveEmpties | Lib/Board.cs:179-184 | a move on an empty square fills exactly one empty square |
| States.PlayMoveDirty | Lib/Board.cs:179-184 | on an empty target, PlayMove raises the dirty flag exactly when it turns a disc over (or the flag was up), and leaves the stable cache alone |
| States.PlaceOnEmpty | Lib/Board.cs:320-324 | placing a disc on an empty square adds one disc of its colour, fills one empty square and leaves the flag as it was |
| States.BlankFacts | Lib/Board.cs:37-46 | the initialised fields are consistent (totals 2, no disc) with 64 empty squares |
| States.CentreDiscsFacts | Lib/Board.cs:48-52 | the four centre placements add two discs of each colour and 2 to each total, without raising the flag |
| States.InitialFacts | Lib/Board.cs:33-53 | a new board has two discs of each colour, totals of 4, 60 empty squares, nothing stable and the flag down |
| States.RefreshFacts | Lib/Board.cs:95-97 | after GetStableCount's refresh the flag is down, the squares and totals are unchanged, and the stable mask holds every occupied corner and only occupied squares |
| States.RefreshIdempotent | Lib/Board.cs:95-102 | a second GetStableCount does not recompute, so two consecutive calls return the same value |
| States.StableCountRefreshed | Lib/Board.cs:95-102 | GetStableCount returns -1 for None, and otherwise the colour's counter, grown by its non-corner stable discs exactly when the board was dirty |
| States.MoveNumberIsDiscs | Lib/Board.cs:111-114 | on a consistent board GetMoveNumber equals the number of discs, that is 64 minus the empty squares |
| States.WinnerByDiscs | Lib/Board.cs:81-87 | on a consistent board GetWinner is None on equal disc counts, otherwise the colour with more discs |
| Boards.Board.constructor | Lib/Board.cs:33-53 | the new board is in the initial state, whose facts InitialFacts states |
| Boards.Board.Copy | Lib/Board.cs:55-59 | the copy has every field of the original |
| Boards.Board.LoadFrom | Lib/Board.cs:61-73 | every field is overwritten with the other board's |
| Boards.Board.GetColor | Lib/Board.cs:123-126 | on the board, GetColor reads the grid the masks encode |
| Boards.Board.SetColor | Lib/Board.cs:298-339 | the fields move exactly as States.SetColor says |
| Boards.Board.GetFlips | Lib/Board.cs:187-210 | returns exactly the flip list of Rules (characterised by FlipsFacts and FlipsExact), directions in table order, each run put in front |
| Boards.Board.FlipsInDirection | Lib/Board.cs:190-207 | one pass of the direction loop puts direction d's captures in front |
| Boards.Board.CollectRun | Lib/Board.cs:192-206 | the run of one direction adds exactly the discs the walk captures |
| Boards.Board.WalkRun | Lib/Board.cs:195-206 | the while loop leaves what the loop specification Pending gives from an empty cache |
| Boards.Board.RunStep | Lib/Board.cs:197-205 | one pass: empty square or c disc ends the run with its outcome, an opponent disc goes first in the cache |
| Boards.Board.GetValidMoves | Lib/Board.cs:128-177 | returns exactly ValidMoves of the grid |
| Boards.Board.ScanRow | Lib/Board.cs:135-173 | the inner loop over row i extends the list from the squares below row i to those below row i + 1 |
| Boards.Board.ScanSquare | Lib/Board.cs:137-172 | one square of the scan extends the list by that square exactly when it is legal |
| Boards.Board.ConsiderSquare | Lib/Board.cs:140-171 | an occupied square is skipped; an empty one is put first exactly when it is legal |
| Boards.Board.CheckDirections | Lib/Board.cs:142-171 | the direction loop, which stops at the first success, answers whether any of the eight directions opens a capture |
| Boards.Board.TryDirection | Lib/Board.cs:145-170 | one pass answers whether direction d opens a capture |
| Boards.Board.RayTest | Lib/Board.cs:148-167 | the neighbour holds the other colour and the scan beyond it brackets |
| Boards.Board.ScanBracket | Lib/Board.cs:153-167 | the inner while loop succeeds exactly when a c disc comes before an empty square or the edge |
| Boards.Board.GetWinner | Lib/Board.cs:81-87 | on a consistent board, None exactly on equal disc counts, otherwise the colour with more discs |
| Boards.Board.GetTotalCount | Lib/Board.cs:104-109 | -1 for None; on a consistent board, the colour's disc count plus 2 |
| Boards.Board.GetMoveNumber | Lib/Board.cs:111-114 | on a consistent board, the number of discs, that is 64 minus the empty squares |
| Boards.Board.IsGameOver | Lib/Board.cs:75-79 | true exactly when neither colour has a move |
| Boards.Board.GetMoveCount | Lib/Board.cs:89-93 | the number of legal moves of c |
| Boards.Board.GetStableCount | Lib/Board.cs:95-102 | recomputes only when dirty, then returns the colour's stable counter, or -1 for None |
| Boards.Board.CalculateStability | Lib/Board.cs:212-274 | afterwards the stable mask is the stable set, the flag is down, and each counter grew, without reset, by its colour's non-corner stable discs |
| Boards.Board.StableSearch | Lib/Board.cs:214-271 | the search leaves the stable set in the mask and adds each colour's non-corner stable discs to its counter |
| Boards.Board.DrainQueue | Lib/Board.cs:237-271 | the queue loop keeps the search invariant until the queue is empty |
| Boards.Board.StartSearch | Lib/Board.cs:214-235 | after seeding, the search invariant holds with nothing processed |
| Boards.Board.SearchStep | Lib/Board.cs:238-270 | a dequeue and its eight children keep the invariant and shrink the unmarked squares or the queue |
| Boards.Board.SeedCorners | Lib/Board.cs:214-235 | the stable mask is cleared, then exactly the occupied corners are marked and queued in the order (0,0), (0,7), (7,0), (7,7) |
| Boards.Board.ExploreChildren | Lib/Board.cs:242-270 | the child loop keeps the invariant and marks a square or changes nothing |
| Boards.Board.VisitChild | Lib/Board.cs:244-268 | a child is marked, counted and queued exactly when it is on the board, occupied, unmarked and passes the four-axis test |
| Boards.Board.MarkChild | Lib/Board.cs:264-267 | the child is marked, counted for its colour, and queued |
| Boards.Board.StableInAllAxes | Lib/Board.cs:250-261 | the sid array and stb compute the four-axis test against the current marks |
| Boards.Board.SideSecured | Lib/Board.cs:253-254 | one entry of sid: the neighbour is off the board or a marked disc of the child's colour |
| Boards.Board.PlayMove | Lib/Board.cs:179-184 | the fields move exactly as States.PlayMove says |
| Boards.MoveToFront | Lib/Board.cs:202 | emptying the cache by AddFirst puts the cache, read backwards, in front of the list |
| Boards.UnloadRestores | Lib/Board.cs:199-202 | a cache built by AddFirst and emptied by AddFirst puts the discs in front in the order they were met |
| Boards.PendingWalk | Lib/Board.cs:193-206 | the loop's outcome equals the walk's: the cache, then the captured run, in front of the earlier flips, or nothing new when the run is not closed |
| Boards.PendingStart | Lib/Board.cs:193-206 | from an empty cache the loop adds exactly the captured discs |
| Boards.EqualsSameCells | Lib/Board.cs:362-369 | boards that are Equal show the same disc on every square |
| Evaluation.PolyIsHorner | Lib/PlayerAI.cs:131-133 | the sum of coefficient times power that the loops accumulate equals Horner's evaluation of the polynomial |
| Evaluation.ScoreEmpty | Lib/PlayerAI.cs:127-136 | each empty coefficient array on its own weighs its feature by zero: the score is as if that feature were 0 |
| Evaluation.ScoreByHorner | Lib/PlayerAI.cs:127-136 | the score is count, mobility and stability each times its polynomial at the move number |
| Evaluation.Multiplier | Lib/PlayerAI.cs:131 | one accumulation loop computes the polynomial at the move number |
| Evaluation.GetScore | Lib/PlayerAI.cs:127-136 | GetScore returns the weighted sum of the three features |
| Evaluation.FromPointsLinear | Lib/PlayerAI.cs:138-143 | for x1 != x2, `[b, m]` gives a line through both points |
| Evaluation.LinearUnique | Lib/PlayerAI.cs:138-143 | any line through both points is the one FromPointsLinear returns |
| Minimax.TruncDiv | Lib/PlayerAI.cs:43-44 | C#'s `/` on int, truncating toward zero: for a >= 0, q * b <= a < q * b + b; for a < 0, q * b - b < a <= q * b |
| Minimax.TruncDivNegate | Lib/PlayerAI.cs:43-44 | negating the dividend negates the quotient, so `-diff / 64` is the negation of `diff / 64` |
| Minimax.TerminalScore | Lib/PlayerAI.cs:38-45 | a game-over score is 0 on a tie, negative exactly for a Black win and positive exactly for a White win |
| Minimax.TerminalValues | Lib/PlayerAI.cs:38-45 | on a consistent board a win scores ±LARGE_NUM/2, or ±LARGE_NUM when the winner holds all 64 squares |
| Minimax.LeafScore | Lib/PlayerAI.cs:47-54 | for either side to move, a depth-0 score is White's weighted features minus Black's |
| Minimax.ListedMove | Lib/PlayerAI.cs:66-68 | each listed move is an empty on-board square, so playing it fills one square |
| Minimax.PassHasReply | Lib/PlayerAI.cs:62 | when the game is not over, a side without moves faces an opponent with some |
| Minimax.Extended | Lib/PlayerAI.cs:65 | the depth grows by one exactly when there are at most two moves and depth < DEFAULT_DEPTH - 2 |
| Minimax.Losing | Lib/PlayerAI.cs:57 | the initial best score is the worst for c: positive for Black, negative for White |
| Minimax.Keep | Lib/PlayerAI.cs:72-87 | the best score becomes the better of the two for c, and a child that is not strictly better, ties included, leaves the best pair unchanged |
| Minimax.Raise | Lib/PlayerAI.cs:79 | alpha only rises, and only for White, to the best score |
| Minimax.Lower | Lib/PlayerAI.cs:88 | beta only falls, and only for Black, to the best score |
| Minimax.ChildrenStep | Lib/PlayerAI.cs:66-91 | one round of the loop, stopping right after the first child that makes alpha >= beta |
| Minimax.ChildrenResult | Lib/PlayerAI.cs:66-92 | the loop returns its initial best, or the pair of a later listed move with exactly the score its child search returned, strictly better for c than the initial best |
| Minimax.ChildrenBound | Lib/PlayerAI.cs:66-92 | White's result is at least, and Black's at most, each evaluated child's score and the initial best |
| Minimax.SearchMove | Lib/PlayerAI.cs:57-92 | every returned move is the sentinel or on the board; a side with moves gets the sentinel or one of its moves |
| Minimax.PassReturnsOpponent | Lib/PlayerAI.cs:62 | a side without moves returns the opponent's search at the same depth, move included |
| Minimax.SentinelMeansNoBetterChild | Lib/PlayerAI.cs:57-92 | a side with moves returns the sentinel only with the losing score it started from |
| Minimax.Terminal | Lib/PlayerAI.cs:38-45 | the game-over branch returns the sentinel with the terminal score |
| Minimax.Leaf | Lib/PlayerAI.cs:47-54 | the depth-0 branch returns the sentinel with the leaf score and only refreshes the board's stability cache |
| Minimax.Explore | Lib/PlayerAI.cs:34-96 | `_Explore` returns the value of the search specification, and leaves the caller's board unchanged except a depth-0 refresh |
| Minimax.Expand | Lib/PlayerAI.cs:56-95 | a node with depth ≥ 1 passes or loops over its moves on a copy, as the specification says |
| Minimax.Pass | Lib/PlayerAI.cs:62 | the pass searches the opponent at the same depth and leaves the copy as it was |
| Minimax.SearchChildren | Lib/PlayerAI.cs:66-92 | the foreach returns the loop specification's value and leaves `running` restored |
| Minimax.Visit | Lib/PlayerAI.cs:68-91 | one round plays the move on the copy, searches, restores with LoadFrom and updates best, alpha and beta |
| Minimax.GetBestMove | Lib/PlayerAI.cs:28-32 | the board is unchanged, the move is the sentinel or on the board, and, when c has moves, the sentinel or one of them |
| Players.Chosen | Lib/AbstractPlayer.cs:12 | the move of any player is the sentinel or a square of the board |
| Players.ChosenLegal | Lib/PlayerRandom.cs:9-17 | with a move available, the random player plays a legal move and the AI player a legal move or the sentinel |
| Players.RandomMove | Lib/PlayerRandom.cs:9-17 | the sentinel exactly when there is no move, otherwise the chosen element of the move list, which is a legal move |
| Players.GetMove | Lib/AbstractPlayer.cs:12 | the human placeholder returns the sentinel, the others their move; the board is unchanged |
| Games.Game.constructor | Lib/Game.cs:10-16 | a fresh board in the initial position, the two players, Black to move |
| Games.Game.GetValidMoves | Lib/Game.cs:18-21 | the moves of the colour whose turn it is |
| Games.Game.RunHumanTurn | Lib/Game.cs:30-41 | the turn always passes; s is played for the mover exactly when it is one of its legal moves, otherwise the board is untouched |
| Games.Game.RunAITurn | Lib/Game.cs:43-59 | nothing changes unless a computer is to move; then the turn passes and its move is played exactly when x != -1 |
| Games.Game.GetWinnerString | Lib/Game.cs:61-64 | "Tie", "Black" or "White" exactly on equal totals, a larger Black total or a larger White total |
| Games.Game.IsGameOver | Lib/Game.cs:66-69 | true exactly when neither colour has a move |
| Games.WinnerStringByDiscs | Lib/Game.cs:61-64 | on a consistent board the string names the colour with more discs, or a tie |

## Left out

- Console output is not modelled: `GetWinner`'s print, `PlayerAI.GetMove`'s and `_Explore`'s messages, and `RunAITurn`'s message.
- `Board._DebugPrintStability` is not modelled. It prints, and re-running the stability search through it would also inflate the counters.
- `Board.GetHashCode`, `Square.GetHashCode` and `Square.ToString` are not modelled. They only hash and format values.
- `Game.GetDrawColor` is not modelled. It only maps colours to UI colour names.
- The unused `_cache` array of MinimaxAB is not modelled.
- Masks.Bits: the 64-bit masks are sets of bit indices rather than `bv64` values. Bit-vector lemmas for setting and clearing single bits ran out of solver resources, while the set form states the same operations (`m | 1 << i` as `m + {i}`, `m & ~(1 << i)` as `m - {i}`).
- Evaluation.GetScore: doubles are modelled as exact reals and `Math.Pow` with a whole exponent as an exact power. Rounding, overflow, infinities and NaN are not modelled.
- Minimax.LargeNum is the exact value of `double.MaxValue / 1024`.
- Players.RandomMove: the draw of `System.Random.Next(Count)` is a parameter `chosen`. The draw's guarantee `chosen < Count` is a precondition whenever the list is non-empty.
- Boards.Board.SetColor and Boards.Board.PlayMove require an on-board square. The source's shifts would wrap an off-board index modulo 64, but every caller passes an on-board square.
- Boards.Board.GetColor states its result only for on-board squares. Off the board it reads the bit of the index modulo 64, as a 64-bit shift does.
- Minimax.Explore and Minimax.GetBestMove require a real colour. With `Color.None`, from a node that is not game over and has depth >= 1, the source has no moves and passes to None again at the same depth, so it never returns. The requirement also excludes the two cases where the source does return for None: a game-over board and depth 0.
- The counters are unbounded integers, so 32-bit overflow is not modelled. The totals stay within 2..66 and cannot overflow. The stable counters are never reset: each recomputation adds at most 60 to them. They would wrap only after more than 35 million recomputations on one board.
- The linked lists of the source are sequences. `AddFirst` is prepending. Walking `f.Next` in PlayerRandom is indexing after the same number of steps.
- `MoveScorePair` is a value type. The aliasing at lines 76-77 of Lib/PlayerAI.cs is harmless because each returned pair is fresh.
- The cursor `(x + dx * index, y + dy * index)` of the scanning loops is a pair of coordinates advanced by `(dx, dy)` each pass.
- Several loop bodies are separate methods with their own contracts: FlipsInDirection, WalkRun, RunStep, ScanRow, ScanSquare, TryDirection, RayTest, StartSearch, DrainQueue, SearchStep, ExploreChildren, VisitChild, MarkChild and SideSecured. They run the same statements in the same order.
- Players.Player: `AbstractPlayer` and its subclasses are variants of one datatype. `IsComputer` is false exactly for the human placeholder.
