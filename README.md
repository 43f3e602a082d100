# Tic-Tac-Toe search engine, modelled in Dafny

This project models the game engine of a Tic-Tac-Toe program in which a human (`X`)
plays against an AI (`O`). The engine searches the game tree with alpha-beta
minimax. The model covers five parts of it:

- the players (`player.dfy`, module `Players`);
- the rules that classify a board as won, drawn or in progress (`rules.dfy`, module `Rules`);
- the board: a nine-cell array written one move at a time (`board.dfy`, module `Boards`);
- the move ordering and the terminal scores (`strategy.dfy`, module `Strategy`);
- the search engine with its node counter (`minimax.dfy`, module `Search`).

`wrappers.dfy` holds the `Option` and `Result` types.

The board's contents go through the model as a `Grid`, a sequence of nine cells. The
`Board` class keeps them in an `array` that `MakeMove` writes in place. The engine
`MiniMax` is a class:

- its `nodesEvaluated` field is reset by `GetBestMove`;
- each call of `Minimax` bumps it by one;
- every loop of `minimax.rs` is a `while` loop proved against a function. The find-first loop of `check_winner` and the iterator of `available_moves` are recursive functions (`WinnerFrom`, `MovesFrom`).

The functions that specify the engine are:

- `Value`: plain minimax with no pruning, over the same ordered moves and the same scores;
- `AlphaBeta` and `Loop`: the pruned search as the engine runs it, with the number of calls it makes;
- `SearchRootFrom`: the root loop of `get_best_move`;
- `ByPriority`: the stable sort of `order_moves`.

The main results are these:

- Alpha-beta is fail-soft correct for every window (`AlphaBetaSound`).
- With the full window `(i32::MIN, i32::MAX)` it equals plain minimax (`FullWindow`).
- Pruning never makes more calls than the unpruned tree (`PruningVisitsNoMore`).
- Every score lies in [-11, 11].
- `GetBestMove` returns a legal move. It is the centre on an empty board and the only move when one is left. Otherwise it is the first move, in priority order, with the highest root score.
- The move ordering is a permutation, non-increasing in priority, and stable. The only sequence with all three properties is `ByPriority`.

## Model

| member | source | states |
|---|---|---|
| Players.Opposite | topics/tic-tac-toe/src/game/player.rs:9-14 | the opposite player is never the player itself |
| Players.OppositeIsInvolution | topics/tic-tac-toe/src/game/player.rs:9-14 | taking the opposite twice gives back the same player |
| Players.Symbol | topics/tic-tac-toe/src/game/player.rs:16-21 | a player's mark is `X` or `O` |
| Players.SymbolValues | topics/tic-tac-toe/src/game/player.rs:16-21 | the human plays `X` and the AI plays `O` |
| Players.SymbolIsInjective | topics/tic-tac-toe/src/game/player.rs:16-21 | distinct players have distinct marks |
| Rules.WinningCombinationsAreRowsColumnsDiagonals | topics/tic-tac-toe/src/game/rules.rs:13-22 | the 8 winning lines are: the three rows, the three columns, the two diagonals, in that order; each index is below 9 by its type |
| Rules.LineWinner | topics/tic-tac-toe/src/game/rules.rs:26-34 | the test on one line finds a player exactly when all three cells belong to that one player |
| Rules.WinnerFromIsFirstOwned | topics/tic-tac-toe/src/game/rules.rs:25-36 | the scan from line `k` finds no one iff no later line is owned; otherwise it names the owner of some line, and every line scanned before that one is unowned |
| Rules.CheckWinner | topics/tic-tac-toe/src/game/rules.rs:24-37 | no contract of its own: the scan of the 8 lines from the first, its meaning stated by `Rules.CheckWinnerIsFirstOwned` |
| Rules.CheckWinnerIsFirstOwned | topics/tic-tac-toe/src/game/rules.rs:24-37 | `check_winner` returns `None` iff neither player owns any line; a winner owns a line and every earlier line is unowned |
| Rules.IsBoardFull | topics/tic-tac-toe/src/game/rules.rs:39-41 | no contract of its own: every cell is occupied, which `Boards.FullIffNoMoves` ties to an empty move list |
| Rules.GameStateOf | topics/tic-tac-toe/src/game/rules.rs:43-51 | no contract of its own: Win before Draw before InProgress, its meaning stated by `Rules.GameStateClassification` |
| Rules.GameStateClassification | topics/tic-tac-toe/src/game/rules.rs:43-51 | Win iff some line is owned, and the winner owns one; Draw iff the board is full and no line is owned; InProgress iff some cell is empty and no line is owned |
| Rules.IsValidMove | topics/tic-tac-toe/src/game/rules.rs:53-55 | no contract of its own: on the grid and empty, which `Boards.ValidMoveIffAvailable` ties to `get_cell` and to the move list |
| Boards.AvailableMoves | topics/tic-tac-toe/src/game/board.rs:29-35 | the moves listed are exactly the empty positions below 9, strictly ascending (so without duplicates), at most 9 of them |
| Boards.GetCell | topics/tic-tac-toe/src/game/board.rs:37-43 | no contract of its own: the bounds-checked read, its meaning stated by `Boards.GetCellAfterPlace` and `Boards.ValidMoveIffAvailable` |
| Boards.IsEmpty | topics/tic-tac-toe/src/game/board.rs:45-47 | no contract of its own: every cell is empty, which `Boards.EmptyIffNineMoves` ties to nine available moves |
| Boards.EmptyIffNineMoves | topics/tic-tac-toe/src/game/board.rs:45-47 | a board is empty iff it has 9 available moves |
| Boards.FullIffNoMoves | topics/tic-tac-toe/src/game/rules.rs:39-41 | a board is full iff it has no available move |
| Boards.InProgressHasMoves | topics/tic-tac-toe/src/game/rules.rs:43-51 | a game in progress always has an available move |
| Boards.PlaceShrinksMoves | topics/tic-tac-toe/src/ai/minimax.rs:108-135 | taking an empty cell leaves exactly one fewer available move; this is the measure that makes the recursive search terminate |
| Boards.GetCellAfterPlace | topics/tic-tac-toe/src/game/board.rs:37-43 | after a placement, `get_cell` reads the new mark at that position; it reads the old contents everywhere else, out-of-range positions included |
| Boards.ValidMoveIffAvailable | topics/tic-tac-toe/src/game/rules.rs:53-55 | `is_valid_move` holds iff the position is below 9 and `get_cell` reads it as empty, that is, iff it is among the available moves |
| Boards.Board.New | topics/tic-tac-toe/src/game/board.rs:10-14 | a new board has every cell empty |
| Boards.Board.FromState | topics/tic-tac-toe/src/game/board.rs:54-56 | a board built from a state holds exactly that state, in a fresh array |
| Boards.Board.MakeMove | topics/tic-tac-toe/src/game/board.rs:16-23 | returns `Err(InvalidMove(position))` iff the position is off the grid or occupied, and then leaves the board unchanged; on success exactly that cell now holds the player |
| Boards.Board.CloneForSimulation | topics/tic-tac-toe/src/game/board.rs:49-51 | the copy has equal contents in a freshly allocated array, so no write to it can reach the original |
| Boards.Board.GameState | topics/tic-tac-toe/src/game/board.rs:25-27 | no contract of its own: the rules' classification of the board's cells, stated by `Rules.GameStateClassification` |
| Boards.SimulateOnClone | topics/tic-tac-toe/src/ai/minimax.rs:49-50 | a move made on a clone changes the clone to the placed grid and leaves the original's cells as they were |
| Strategy.EvaluateTerminalState | topics/tic-tac-toe/src/ai/strategy.rs:6-13 | 1 iff the AI has won, -1 iff the human has won, 0 iff nobody has won |
| Strategy.MovePriority | topics/tic-tac-toe/src/ai/strategy.rs:15-22 | a priority is between 0 and 3 |
| Strategy.CenterCornerEdge | topics/tic-tac-toe/src/ai/strategy.rs:15-22 | the centre outranks every corner, every corner outranks every edge, and every edge outranks any position off the grid |
| Strategy.HeuristicEvaluation | topics/tic-tac-toe/src/ai/strategy.rs:30-38 | the heuristic is the terminal score of the board's state, so it is 0 in progress and always in [-1, 1] |
| Strategy.ByPriorityIsPermutation | topics/tic-tac-toe/src/ai/strategy.rs:24-28 | the ordering has the same multiset as its input, and the same length |
| Strategy.ByPriorityIsSorted | topics/tic-tac-toe/src/ai/strategy.rs:26 | the ordering is non-increasing in priority |
| Strategy.ByPriorityIsStable | topics/tic-tac-toe/src/ai/strategy.rs:26 | moves of equal priority keep their relative input order |
| Strategy.SortedAndStableIsByPriority | topics/tic-tac-toe/src/ai/strategy.rs:26 | any sequence that is sorted by priority and keeps each priority class in input order equals `ByPriority`, so a stable sort has exactly one result |
| Strategy.InsertStep | topics/tic-tac-toe/src/ai/strategy.rs:26 | one insertion step on the array: the prefix that includes index `i` is now sorted, each priority class keeps its order, and the rest of the array is untouched |
| Strategy.OrderMoves | topics/tic-tac-toe/src/ai/strategy.rs:24-28 | the in-place sort returns exactly `ByPriority(moves)` (permutation, sorted, stable by the lemmas above) |
| Search.TerminalScore | topics/tic-tac-toe/src/ai/minimax.rs:91-100 | within ten plies a terminal score is in [-11, 11]; it is positive iff the AI won and negative iff the human won |
| Search.TerminalScoreByDepth | topics/tic-tac-toe/src/ai/minimax.rs:91-100 | a sooner win scores strictly more, a sooner loss strictly less, and a draw scores 0 |
| Search.DepthGuardUnreachable | topics/tic-tac-toe/src/ai/minimax.rs:104-106 | while depth plus the empty cells is at most 9, a board in progress is at depth 8 or less, and every child keeps the bound; so the depth guard never fires |
| Search.RootChildrenWithinBound | topics/tic-tac-toe/src/ai/minimax.rs:48-58 | a root child, searched at depth 0, has at most 8 empty cells, so it starts within that bound |
| Search.Value | topics/tic-tac-toe/src/ai/minimax.rs:78-146 | no contract of its own: plain minimax with no cut-off, the reference that `Search.AlphaBetaSound` and `Search.FullWindow` hold the search to, and that `Search.ValueBounds` bounds |
| Search.AlphaBeta | topics/tic-tac-toe/src/ai/minimax.rs:86 | every search call counts at least itself |
| Search.Loop | topics/tic-tac-toe/src/ai/minimax.rs:111-145 | no contract of its own: the move loop with its cut-off, stated fail-soft correct by `Search.LoopSound` and implemented by `Search.MiniMax.MaximizingLoop` and `Search.MiniMax.MinimizingLoop` |
| Search.ValueOver | topics/tic-tac-toe/src/ai/minimax.rs:112-144 | the running maximum over the children never drops below `i32::MIN`, and the running minimum never rises above `i32::MAX` |
| Search.ValueBounds | topics/tic-tac-toe/src/ai/minimax.rs:91-145 | the plain minimax value within ten plies is in [-11, 11] |
| Search.AlphaBetaBounds | topics/tic-tac-toe/src/ai/minimax.rs:78-146 | the alpha-beta score within ten plies is in [-11, 11], whatever the window |
| Search.AlphaBetaSound | topics/tic-tac-toe/src/ai/minimax.rs:111-145 | for any window in the i32 range, alpha-beta is fail-soft correct against plain minimax over the same ordered moves: exact inside the window; an upper bound at or below `alpha`, and at least the value; a lower bound at or above `beta`, and at most the value |
| Search.LoopSound | topics/tic-tac-toe/src/ai/minimax.rs:114-125 | the move loop keeps the window invariant, and its result is fail-soft correct for the value of the moves tried plus those not yet tried |
| Search.FullWindow | topics/tic-tac-toe/src/ai/minimax.rs:52-58 | called with the full window (`i32::MIN`, `i32::MAX`), alpha-beta returns exactly the plain minimax value |
| Search.PruningVisitsNoMore | topics/tic-tac-toe/src/ai/minimax.rs:122-124 | cut-offs only save work: alpha-beta makes no more calls than the unpruned tree has nodes |
| Search.FirstMaxFromIsFirstMax | topics/tic-tac-toe/src/ai/minimax.rs:64-67 | scanning with strict `>` from a sentinel below every score ends on an index whose score is the maximum, and every earlier score is strictly lower |
| Search.SearchRootFrom | topics/tic-tac-toe/src/ai/minimax.rs:48-68 | no contract of its own: the root loop, whose move `Search.RootChoiceIsFirstBest` shows is the first best and whose calls `Search.SearchRootFromNodes` counts |
| Search.SearchRootFromNodes | topics/tic-tac-toe/src/ai/minimax.rs:48-68 | the root loop never prunes, so the calls it makes do not depend on the move it holds |
| Search.SearchRootFromPick | topics/tic-tac-toe/src/ai/minimax.rs:48-68 | the move the root loop keeps depends only on the scores of the root moves |
| Search.PickFromIsFirstMax | topics/tic-tac-toe/src/ai/minimax.rs:64-67 | the move kept is the entry of the ordering at the first index of the highest score |
| Search.RootChoiceIsFirstBest | topics/tic-tac-toe/src/ai/minimax.rs:39-68 | the root loop, started at `i32::MIN`, keeps the first move in priority order whose root score is the highest |
| Search.MiniMax.constructor | topics/tic-tac-toe/src/ai/minimax.rs:10-15 | a new engine has the given debug flag and a zero node count |
| Search.MiniMax.GetBestMove | topics/tic-tac-toe/src/ai/minimax.rs:17-76 | resets the counter and returns a legal move: 4 with no search on an empty board, and the only move with no search when one is left; otherwise the first move in priority order with the highest root score, with the counter equal to the calls the root searches made |
| Search.MiniMax.SearchRoot | topics/tic-tac-toe/src/ai/minimax.rs:39-68 | the loop over the ordered root moves keeps a legal move, the one the root loop's specification names, and adds that loop's calls to the counter |
| Search.MiniMax.ScoreRootMove | topics/tic-tac-toe/src/ai/minimax.rs:49-58 | the full-window search of one root move on a clone returns the alpha-beta score and adds its calls to the counter |
| Search.MiniMax.Minimax | topics/tic-tac-toe/src/ai/minimax.rs:78-110 | one search call returns the alpha-beta score of the board and raises the counter by exactly the calls the search makes, itself included |
| Search.MiniMax.MaximizingLoop | topics/tic-tac-toe/src/ai/minimax.rs:111-127 | the AI's loop over clones returns the loop function's score; it raises `alpha`, stops once `beta <= alpha`, and counts every call it makes |
| Search.MiniMax.MinimizingLoop | topics/tic-tac-toe/src/ai/minimax.rs:128-145 | the human's loop over clones returns the loop function's score; it lowers `beta`, stops once `beta <= alpha`, and counts every call it makes |

## Left out

- Trace output: the `if self.debug { println!(...) }` output in `get_best_move`. It has no effect on the move returned. `debug` is kept as a field.
- The `Display` impls for `Board` and `BoardError`, and `Default for Board`. They are rendering only, and `default` is just `Board::new`.
- The command-line interface and the interactive game loop. They are I/O around the engine: `ui/cli.rs` and `main.rs` are not part of this model.
- `i32` arithmetic. Scores are unbounded integers, and `i32::MIN`/`i32::MAX` are the constants `I32Min`/`I32Max`.
  - No score leaves [-11, 11] (`ValueBounds`, `AlphaBetaBounds`), so nothing can wrap.
  - The cast `depth as i32` in `10 - depth` is exact for the depths the search reaches (`DepthGuardUnreachable`).
- `nodes_evaluated` is a `usize`. The model counts it as a `nat` with no upper bound.
- The `panic!` on a board with no available move. It becomes the precondition of `GetBestMove` that some move is available.
- The `unwrap()` of `make_move` inside the search. The model proves that the call returns `Ok` instead of modelling a panic.
- Place of the read-only board queries:
  - `available_moves`, `get_cell`, `is_empty` and `game_state` read the board without changing it. They are modelled as functions of the board's contents (`Board.Cells()`) rather than methods that take a `Board`.
  - `heuristic_evaluation` and the rules likewise take the contents.
- Extra helper methods for the loops:
  - The root loop of `get_best_move` is split out as `SearchRoot`, with one iteration's clone, move and search as `ScoreRootMove`.
  - The two move loops of `minimax` are split out as `MaximizingLoop` and `MinimizingLoop`.
  - The statements are the source's, in the same order.
- `order_moves` calls the library's `sort_by`, whose algorithm is not visible. It is modelled by an in-place insertion sort on an array, with two consequences:
  - The model fixes only the result, which `SortedAndStableIsByPriority` shows is the one result any stable sort by priority can have.
  - It does not fix the order of comparisons.
- Whole-game claims are not stated, because they need the full game tree evaluated. Examples are "the AI never loses" and "self-play from the empty board is a draw".
