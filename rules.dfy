/** Pure classification of a 3x3 grid: who owns a line, whether the grid is full,
    and whether a move is legal. */
module Rules {

  import opened Wrappers
  import opened Players

  /** A cell index on the grid, row-major: index == row * 3 + col. */
  type Pos = i: nat | i < 9

  type Cell = Option<Player>

  /** The nine cells of a board. */
  type Grid = g: seq<Cell> | |g| == 9
    witness [None, None, None, None, None, None, None, None, None]

  datatype GameState = InProgress | Win(winner: Player) | Draw

  /** A winning line: three cell indices. */
  type Line = (Pos, Pos, Pos)

  const WinningCombinations: seq<Line> := [
    (0, 1, 2), (3, 4, 5), (6, 7, 8),
    (0, 3, 6), (1, 4, 7), (2, 5, 8),
    (0, 4, 8), (2, 4, 6)
  ]

  /** The 8 lines are the 3 rows, the 3 columns and the 2 diagonals, in that order. */
  lemma WinningCombinationsAreRowsColumnsDiagonals()
    ensures |WinningCombinations| == 8
    ensures forall r :: 0 <= r < 3 ==> WinningCombinations[r] == (3 * r, 3 * r + 1, 3 * r + 2)
    ensures forall k :: 3 <= k < 6 ==> WinningCombinations[k] == (k - 3, k, k + 3)
    ensures WinningCombinations[6] == (0, 4, 8) && WinningCombinations[7] == (2, 4, 6)
  {
  }

  /** All three cells of `line` hold `p`. */
  predicate Owns(g: Grid, line: Line, p: Player)
  {
    g[line.0] == Some(p) && g[line.1] == Some(p) && g[line.2] == Some(p)
  }

  /** No single player holds all three cells of `line`. */
  predicate Unowned(g: Grid, line: Line)
  {
    !Owns(g, line, Human) && !Owns(g, line, AI)
  }

  /** The test applied to one line: all three cells occupied, by one and the same player. */
  function LineWinner(g: Grid, line: Line): (r: Option<Player>)
    ensures r.None? <==> Unowned(g, line)
    ensures r.Some? ==> Owns(g, line, r.value)
  {
    match g[line.0]
    case Some(a) => if g[line.1] == Some(a) && g[line.2] == Some(a) then assert a == Human || a == AI; Some(a) else None
    case None => None
  }

  /** The scan of `WinningCombinations` from line `k` on, stopping at the first owned line. */
  function WinnerFrom(g: Grid, k: nat): Option<Player>
    requires k <= |WinningCombinations|
    decreases |WinningCombinations| - k
  {
    if k == |WinningCombinations| then None
    else
      match LineWinner(g, WinningCombinations[k])
      case Some(p) => Some(p)
      case None => WinnerFrom(g, k + 1)
  }

  /** The scan from line `k` finds nothing exactly when no later line is owned, and
      otherwise names the owner of the first owned line. */
  lemma {:induction false} WinnerFromIsFirstOwned(g: Grid, k: nat)
    requires k <= |WinningCombinations|
    ensures WinnerFrom(g, k).None? <==>
      forall j :: k <= j < |WinningCombinations| ==> Unowned(g, WinningCombinations[j])
    ensures WinnerFrom(g, k).Some? ==>
      exists j :: k <= j < |WinningCombinations| && Owns(g, WinningCombinations[j], WinnerFrom(g, k).value) &&
        forall i :: k <= i < j ==> Unowned(g, WinningCombinations[i])
    decreases |WinningCombinations| - k
  {
    if k < |WinningCombinations| {
      WinnerFromIsFirstOwned(g, k + 1);
      if LineWinner(g, WinningCombinations[k]).None? {
        var r := WinnerFrom(g, k + 1);
        assert r.Some? ==>
          exists j :: k + 1 <= j < |WinningCombinations| && Owns(g, WinningCombinations[j], r.value) &&
            forall i :: k <= i < j ==> Unowned(g, WinningCombinations[i]);
      }
    }
  }

  /** The owner of the first fully owned line, if any. */
  function CheckWinner(g: Grid): Option<Player>
  {
    WinnerFrom(g, 0)
  }

  /** No winner exactly when no line is owned by either player; a winner owns a line
      and every line before it is unowned. */
  lemma CheckWinnerIsFirstOwned(g: Grid)
    ensures CheckWinner(g).None? <==> forall j, p :: 0 <= j < 8 ==> !Owns(g, WinningCombinations[j], p)
    ensures CheckWinner(g).Some? ==>
      exists j :: 0 <= j < 8 && Owns(g, WinningCombinations[j], CheckWinner(g).value) &&
        forall i :: 0 <= i < j ==> Unowned(g, WinningCombinations[i])
  {
    WinnerFromIsFirstOwned(g, 0);
  }

  predicate IsBoardFull(g: Grid)
  {
    forall i :: 0 <= i < 9 ==> g[i].Some?
  }

  /** Win if some line is owned, else Draw if no cell is empty, else InProgress. */
  function GameStateOf(g: Grid): GameState
  {
    match CheckWinner(g)
    case Some(w) => Win(w)
    case None => if IsBoardFull(g) then Draw else InProgress
  }

  /** The three outcomes of `GameStateOf` in terms of the lines and the cells: a win
      names the owner of a line, a draw has no owned line and no empty cell, and a game
      in progress has no owned line and at least one empty cell. */
  lemma GameStateClassification(g: Grid)
    ensures GameStateOf(g).Win? <==> exists j, p :: 0 <= j < 8 && Owns(g, WinningCombinations[j], p)
    ensures GameStateOf(g).Win? ==> exists j :: 0 <= j < 8 && Owns(g, WinningCombinations[j], GameStateOf(g).winner)
    ensures GameStateOf(g) == Draw <==>
      IsBoardFull(g) && forall j, p :: 0 <= j < 8 ==> !Owns(g, WinningCombinations[j], p)
    ensures GameStateOf(g) == InProgress <==>
      (exists i :: 0 <= i < 9 && g[i].None?) && forall j, p :: 0 <= j < 8 ==> !Owns(g, WinningCombinations[j], p)
  {
    CheckWinnerIsFirstOwned(g);
  }

  predicate IsValidMove(g: Grid, position: nat)
  {
    position < 9 && g[position].None?
  }
}
