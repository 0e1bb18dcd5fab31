# Filler: board and solver, modelled in Dafny

Filler is a two-player game on a grid of coloured tiles. Player 0 starts from the bottom-left corner,
player 1 from the top-right one. A move names a colour: the mover's whole territory is repainted
with it, and every unowned neighbouring tile already of that colour joins the territory. The value
of a board for a player is the player's tile count minus the opponent's. The computer player is a
fixed-depth negamax search without pruning.

This project models the board object of `boards.py` and the solver of `solve.py`:

- `Tiles.dfy` holds the six colours, the two players and the owner of a cell (`None`, 0 or 1). It
  also lists a set of colours in a fixed palette order.
- `BoardState.dfy` describes a board as a value (`Snapshot`: dimensions, colour grid, ownership
  grid). It holds the read-only operations that are plain expressions: the corner colours, the
  board value, the legal moves and the potential moves.
- `Moves.dfy` defines the move rule (`AfterMove`) as the code's row-major double loop, cell by
  cell, and proves what a move does. It also shows that on boards reachable in play the row-major
  sweep equals an order-free rule.
- `Boards.dfy` defines the class `Board`, with two 2-D arrays as fields, and proves each method
  against the value-level definitions through `Snap()`:
  - `CreateRandom` deals a board;
  - `AddMove` sweeps a fresh copy;
  - `GetPotentialMoves` scans every cell of the board;
  - `MovesRemaining` and `GameOver` are scans that return as soon as one cell decides the answer.
- `Negamax.dfy` is the specification of the search (`Search`, `Scores`, `Score`, `ArgBest`). It is
  parameterised by how a leaf is scored, and proves properties of the search.
- `Solve.dfy` defines the class `Solver` with `ChooseMove`. The method loops over the candidates with
  the code's `best_move`/`best_value` accumulators and recurses through a fresh opponent solver. It
  is proved to return exactly `Search(board.Snap(), player, maxdepth, depth, BoardBefore)`.

Methods without a `modifies` clause (`AddMove`, `GetPotentialMoves`, `MovesRemaining`, `GameOver`,
`ChooseMove`) cannot change any object that existed before the call. So the board passed in is
never altered, and `AddMove` returns a board built from fresh arrays.

## Model

| member | source | states |
|---|---|---|
| Boards.Board.constructor | boards.py:8-13 | a new board has the given dimensions, by default 8 columns and 7 rows, and no cells yet |
| Boards.DealColours | boards.py:19-29 | the colour grid has the requested dimensions, and every cell differs from the cell above and the cell to its left, whatever colour is drawn among the eligible ones |
| Tiles.FewForbidden | boards.py:22-27 | with at most two colours forbidden, at least four of the six remain eligible |
| Boards.PickColour | boards.py:22-28 | the colour drawn is neither the colour of the cell above nor that of the cell to the left, where those exist |
| Boards.Board.CreateRandom | boards.py:15-34 | the board gets fresh arrays of its own dimensions. The colours differ from the cell above and the cell to the left. The top-right corner goes to player 1, the bottom-left one to player 0 unless the two coincide, and every other cell is unowned |
| Moves.DealtOwnsTwoCells | boards.py:32-34 | on a dealt board with two distinct corners each player holds exactly one cell, so the board is worth 0 |
| Moves.DealtIsPlayable | boards.py:19-34 | a dealt board with distinct corners has no two adjacent unowned cells of one colour, and each player holds its corner |
| Boards.Board.Copy | boards.py:39-40 | the copies are fresh arrays holding exactly the receiver's board |
| Moves.Paint | boards.py:44 | repainting a cell changes the colour of that cell only, and no owner |
| Moves.Usurp | boards.py:45-52 | a cell is claimed for the player exactly when it lies on the board, is unowned and shows the move colour; no colour and no other owner changes |
| Boards.Repaint | boards.py:44 | the array assignment leaves the board equal to `Moves.Paint` of the board before it |
| Boards.Claim | boards.py:45-52 | one guarded usurp on the arrays leaves the board equal to `Moves.Usurp` of the board before it |
| Boards.ClaimNeighbours | boards.py:45-52 | the four usurp tests, above, below, left and right in that order, equal the four `Moves.Usurp` steps in the same order |
| Boards.VisitCell | boards.py:43-52 | one iteration of the inner loop on the arrays equals `Moves.Visit` on the board before it |
| Moves.Visit | boards.py:43-52 | visiting a cell the player holds repaints that cell, and claims exactly its unowned neighbours of the move colour. A cell the player does not hold changes nothing |
| Moves.SweepRow | boards.py:42-52 | the board after the first `j` cells of row `i` are visited from left to right, one `Visit` each; it keeps the board's shape |
| Moves.SweepRows | boards.py:41-52 | the board after its first `i` rows are swept in order; it keeps the board's shape |
| Moves.AfterMove | boards.py:41-52 | the move is the sweep of every row, top to bottom, of the board as it stands; it keeps the board's shape. What it changes is stated by the `AfterMove…` lemmas below |
| Boards.SweepRowCells | boards.py:42-52 | the inner loop leaves the arrays equal to the row sweep of the board it started from |
| Boards.SweepArrays | boards.py:41-52 | the double loop leaves the arrays equal to `AfterMove` of the board it started from |
| Boards.Board.AddMove | boards.py:36-53 | the result is a new board on fresh arrays, with the receiver's dimensions, holding `AfterMove` of the receiver's board |
| Boards.Board.AddMoveAsWritten | boards.py:38 | with the code's `Board()`, the swept arrays are right, but the result claims 8 columns and 7 rows. It describes its arrays exactly when the receiver is 8 by 7 |
| Moves.AfterMoveKeepsOwners | boards.py:43-52 | a move changes ownership only from unowned to the mover; every held cell, the opponent's in particular, keeps its owner |
| Moves.AfterMoveRepaints | boards.py:43-44 | every cell the mover held takes the move colour, and every other cell keeps its colour |
| Moves.AfterMoveCaptures | boards.py:45-52 | every unowned neighbour of the mover's territory that shows the move colour is captured |
| Moves.AfterMoveSingleLayer | boards.py:41-52 | on boards whose adjacent unowned cells differ in colour, a captured cell showed the move colour and touches the territory held before the move |
| Moves.AfterMoveIsOneLayer | boards.py:41-52 | on such boards, the row-major sweep equals the order-free rule: repaint the territory, then capture the neighbours of the move colour |
| Moves.AfterMoveKeepsPlayable | boards.py:41-52 | every move keeps the corners with their players and keeps adjacent unowned cells distinct in colour |
| Moves.AfterMoveCounts | boards.py:62-66 | a move never lowers the mover's count or value and leaves the opponent's count unchanged |
| BoardState.BoardValue | boards.py:62-66 | the value is the cells the player holds minus the cells the opponent holds, counted row by row; its bounds and antisymmetry are the two lemmas below |
| BoardState.BoardValueBounded | boards.py:62-66 | the value never exceeds the number of cells, `nrows * ncols`, in either direction |
| BoardState.BoardValueAntisymmetric | boards.py:62-66 | the value for a player is the negation of the value for the opponent |
| BoardState.PlayerTiles | boards.py:55-60 | the pair is (bottom-left, top-right) when player 0 holds the bottom-left cell and the reverse otherwise; either way the two colours are exactly the two corner colours |
| Moves.PlayerTilesInPlay | boards.py:57-60 | on a board in play the colours come back as (player 0's, player 1's), so the `else` branch is never taken |
| BoardState.LegalMoves | boards.py:103-108 | the legal moves are exactly the colours other than the two corner colours, in palette order, so there are at least 4 |
| BoardState.PotentialMoves | boards.py:84-101 | the potential moves are exactly the frontier colours other than the two corner colours |
| Tiles.InPaletteOrder | boards.py:84-101 | a set of colours is listed with each member once, nothing else, by increasing palette rank |
| Boards.Board.GetPotentialMoves | boards.py:84-101 | the scan returns exactly `PotentialMoves` of the board |
| Boards.Board.AddOffers | boards.py:90-99 | the four neighbour tests on one cell add exactly the colours of its unowned neighbours when the player holds it, and nothing otherwise |
| Moves.PotentialMoveGains | boards.py:84-101 | playing a potential move strictly increases the mover's count and value |
| Boards.Board.MovesRemaining | boards.py:68-82 | the scan answers true exactly when a frontier colour lies outside the two given colours |
| Boards.Board.OffersOutside | boards.py:73-81 | the four neighbour tests on one cell find such a colour exactly when the cell offers one |
| Boards.MovesRemainingMeansPotentialMoves | boards.py:68-101 | given the corner colours, `moves_remaining` is true exactly when the potential moves are non-empty |
| Boards.Board.GameOver | boards.py:110-116 | the scan answers true exactly when every cell is owned |
| BoardState.ClaimedBoardHasNoPotentialMoves | boards.py:84-116 | once every cell is owned there is no potential move |
| Solve.Solver.constructor | solve.py:7-9 | a solver keeps the player and the depth limit it is given |
| Negamax.Candidates | solve.py:14-16 | the candidates are never empty and never a corner colour |
| Solve.Solver.CandidateMoves | solve.py:14-16 | the solver tries the potential moves, or else the first legal move alone |
| Negamax.SearchMoveIsLegal | solve.py:14-16 | the chosen move is a potential move when there is one, else the first legal move. It is always legal and never a corner colour |
| Negamax.Search | solve.py:11-31 | the search scores every candidate and keeps the first of highest score, with that score; the move returned is always a candidate |
| Negamax.Scores | solve.py:17-30 | one score per candidate, in candidate order. Each is `Score`: above the depth limit minus the opponent's search value one level deeper on the board after the move, at the limit the value of the board |
| Negamax.ArgBest | solve.py:23-24 | scanning with a strict `>` keeps the first index of a maximum |
| Solve.BestStep | solve.py:23-24 | one update of the accumulators keeps the first best candidate so far and its score |
| Solve.Solver.Reply | solve.py:19-22 | a candidate's score above the depth limit is minus the value the opponent's solver returns one level deeper, on the board after the move |
| Solve.Solver.LookAhead | solve.py:17-24 | above the depth limit the loop returns the search's move and value |
| Solve.Solver.Leaf | solve.py:27-28 | at the depth limit a candidate's score is the value of the board it was played on |
| Solve.Solver.AtLimit | solve.py:25-30 | at the depth limit the loop returns the search's move and value |
| Solve.Solver.ChooseMove | solve.py:11-31 | the solver returns exactly the move and value of the negamax search, with leaves scored as written; the recursion ends because the levels left strictly decrease |
| Negamax.SearchIsFirstBest | solve.py:17-30 | the value returned is the highest score among the candidates, and the move is the first candidate attaining it |
| Negamax.LeafIgnoresMove | solve.py:25-30 | at the depth limit every candidate ties: the result is the first candidate, with the value of the board as given |
| Negamax.LastLevelScoresNextBoard | solve.py:19-30 | one level above the limit a candidate's score is the value of the board the candidate produces |
| Negamax.OneLevelIsGreedy | solve.py:17-30 | with one level to go, the solver returns a candidate whose resulting board is worth most, and that board's value; every earlier candidate's board is worth strictly less, so it is the first such candidate |
| Negamax.SearchIsOneLevelShallower | solve.py:17-30 | searching to depth d with leaves scored as written equals searching to depth d-1 with leaves scored after the move |
| Negamax.LeafAfterMoveRewardsCapture | solve.py:27-28 | scoring leaves after the move makes the last level count: when a capture is possible, the leaf value exceeds the board's value |

## Left out

- `main.py` is not part of this model. It is the command-line game loop: input, printing,
  argument parsing and module reloading. Its lines 25-26 pass the solver's `(move, value)` pair to
  `add_move` as a move; that is glue outside the model.
- `print_board`, `print_score` and the emoji map `tiles_to_colors` are display only.
- Random dealing: `np.random.seed` and `np.random.choice` become an arbitrary pick (`:|`) from the
  eligible colours. Only what holds for every pick is proved; the distribution is not modelled.
- Boards.Board.CreateRandom: a second call on the same board appends further rows to the existing
  list in the code. The model deals fresh arrays of the board's dimensions. The code is only ever
  called once per board.
- Boards.Board.CreateRandom: boards without a row or a column are excluded (`nrows >= 1 && ncols >= 1`), because the
  code's corner assignment at boards.py:33 raises `IndexError` on them.
- Boards.Board.AddMove, GetPotentialMoves, MovesRemaining and GameOver require `Valid()`, which a board never dealt does
  not meet. Such a board has no `player_board`, so the code raises `AttributeError`: in `add_move` at boards.py:40
  for any dimensions, in `get_potential_moves` through `get_player_tiles` (boards.py:100 and 57) for any dimensions,
  and in the scans of `moves_remaining` and `game_over` (boards.py:68-82, 110-116) when the board has at least one cell.
- Boards.Board.GameOver, MovesRemaining: on a board never dealt with no row or no column, the code's loops never run,
  so `game_over` returns True (boards.py:116) and `moves_remaining` returns False (boards.py:82) without raising. The
  model excludes such boards through `Valid()` and does not state these two answers.
- `copy.deepcopy` becomes two fresh arrays filled cell by cell.
- Python sets have no iteration order. Every set of colours is listed in the fixed palette order
  red, green, yellow, blue, purple, white (`Tiles.InPaletteOrder`). The tie-break between equally
  scored candidates, and which legal move is "first", are those of this order.
- BoardState.LegalMoves: the code's `player` argument is accepted and unused, so the model takes no
  player.
- `get_player_tiles` and `get_board_value` are modelled as functions of the board value
  (`PlayerTiles`, `BoardValue`) rather than as methods of `Board`, since they only read it.
- Solve.Solver.ChooseMove: the code's single method is split into helper methods (`CandidateMoves`,
  `LookAhead`, `AtLimit`, `Reply`, `Leaf`) with the same statements, the accumulators being initialised in each loop helper
  rather than before the candidates are computed.
- Python's dynamic typing is not modelled. A move is always one of the six colours, and a player is 0
  or 1.

## Findings

| source | as written | input that shows it | evidently intended | confidence | as-written member | corrected member |
|---|---|---|---|---|---|---|
| solve.py:27-28 | at the depth limit each candidate is scored by `board.get_board_value`, the board before the move; `board_after_move` is computed and unused | any board with two potential moves that capture different numbers of cells, at `depth >= maxdepth`: all candidates tie and the first is returned, whatever it captures | score `board_after_move.get_board_value(...)`, so that the last level of look-ahead counts | not executed; high | Negamax.LeafIgnoresMove (with Negamax.SearchIsOneLevelShallower: a search to depth d equals the intended search to depth d-1) | Negamax.LeafAfterMoveRewardsCapture (search with `BoardAfter` leaves) |
| boards.py:38 | `add_move` builds its result with `Board()`, so the result claims 8 columns and 7 rows whatever the receiver's dimensions | a 3 by 3 board: the result's `nrows` is 7, and a further `add_move` on it reads `player_board[0][3]`, past the end of a 3-cell row, and raises IndexError | `Board(self.ncols, self.nrows)` | not executed; high | Boards.Board.AddMoveAsWritten | Boards.Board.AddMove |

The solver (`Solve.Solver.ChooseMove`) is modelled as written, with leaves scored on the board before
the move. The corrected leaf scoring is `Negamax.Search` with `BoardAfter`, about which
`LeafAfterMoveRewardsCapture` is proved. Every other member uses `Boards.Board.AddMove`, which
carries the receiver's dimensions over.
