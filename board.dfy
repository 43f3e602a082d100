/** The 3x3 board: a fixed array of nine cells written one move at a time,
    and the read-only queries on its contents. */
module Boards {

  import opened Wrappers
  import opened Players
  import opened Rules

  datatype BoardError = InvalidMove(position: nat)

  /** The empty cells with index `k` or more, in ascending order. */
  function MovesFrom(g: Grid, k: nat): (r: seq<nat>)
    requires k <= 9
    ensures forall i :: i in r <==> k <= i < 9 && g[i].None?
    ensures forall a, b :: 0 <= a < b < |r| ==> r[a] < r[b]
    ensures |r| <= 9 - k
    decreases 9 - k
  {
    if k == 9 then []
    else if g[k].None? then
      var rest := MovesFrom(g, k + 1);
      assert forall b :: 0 <= b < |rest| ==> rest[b] in rest;
      [k] + rest
    else MovesFrom(g, k + 1)
  }

  /** The indices of the empty cells: exactly the legal positions, strictly ascending. */
  function AvailableMoves(g: Grid): (r: seq<nat>)
    ensures forall i :: i in r <==> IsValidMove(g, i)
    ensures forall a, b :: 0 <= a < b < |r| ==> r[a] < r[b]
    ensures |r| <= 9
  {
    MovesFrom(g, 0)
  }

  /** Bounds-checked read: an index past the grid reads as empty. */
  function GetCell(g: Grid, position: nat): Cell
  {
    if position < 9 then g[position] else None
  }

  predicate IsEmpty(g: Grid)
  {
    forall i :: 0 <= i < 9 ==> g[i].None?
  }

  /** The grid after `player` takes the cell at `position`. */
  function Place(g: Grid, position: Pos, player: Player): Grid
  {
    g[position := Some(player)]
  }

  lemma {:induction false} MovesFromCount(g: Grid, k: nat)
    requires k <= 9
    ensures |MovesFrom(g, k)| == 9 - k <==> forall i :: k <= i < 9 ==> g[i].None?
    decreases 9 - k
  {
    if k < 9 {
      MovesFromCount(g, k + 1);
      var rest := MovesFrom(g, k + 1);
      if g[k].None? {
        assert |MovesFrom(g, k)| == 1 + |rest|;
      } else {
        assert |MovesFrom(g, k)| == |rest| <= 8 - k;
      }
    }
  }

  /** A board is empty exactly when all nine positions are available. */
  lemma EmptyIffNineMoves(g: Grid)
    ensures IsEmpty(g) <==> |AvailableMoves(g)| == 9
  {
    MovesFromCount(g, 0);
  }

  /** A board is full exactly when no position is available. */
  lemma FullIffNoMoves(g: Grid)
    ensures IsBoardFull(g) <==> AvailableMoves(g) == []
  {
    var r := AvailableMoves(g);
    if r != [] {
      assert r[0] in r;
    }
  }

  /** An in-progress board always has a legal move. */
  lemma InProgressHasMoves(g: Grid)
    requires GameStateOf(g) == InProgress
    ensures AvailableMoves(g) != []
  {
    FullIffNoMoves(g);
  }

  lemma {:induction false} MovesFromPlace(g: Grid, position: Pos, player: Player, k: nat)
    requires IsValidMove(g, position) && k <= 9
    ensures |MovesFrom(Place(g, position, player), k)| ==
            if k <= position then |MovesFrom(g, k)| - 1 else |MovesFrom(g, k)|
    decreases 9 - k
  {
    if k < 9 {
      MovesFromPlace(g, position, player, k + 1);
    }
  }

  /** Occupying an empty cell leaves exactly one fewer legal move: the measure that
      makes the game-tree search terminate. */
  lemma PlaceShrinksMoves(g: Grid, position: Pos, player: Player)
    requires IsValidMove(g, position)
    ensures |AvailableMoves(Place(g, position, player))| == |AvailableMoves(g)| - 1
  {
    MovesFromPlace(g, position, player, 0);
  }

  /** After a placement, `GetCell` reads the new mark at that position and the old
      contents everywhere else, out-of-range positions included. */
  lemma GetCellAfterPlace(g: Grid, position: Pos, player: Player, q: nat)
    ensures GetCell(Place(g, position, player), q) ==
            if q == position then Some(player) else GetCell(g, q)
  {
  }

  /** A position is legal exactly when `GetCell` reads it as empty and it is on the grid,
      that is, exactly when it is listed by `AvailableMoves`. */
  lemma ValidMoveIffAvailable(g: Grid, position: nat)
    ensures IsValidMove(g, position) <==> position < 9 && GetCell(g, position).None?
    ensures IsValidMove(g, position) <==> position in AvailableMoves(g)
  {
  }

  class Board {
    const cells: array<Cell>

    ghost predicate Valid()
      reads this
    {
      cells.Length == 9
    }

    /** The contents of the board as a value. */
    function Cells(): Grid
      reads this, cells
      requires Valid()
    {
      cells[..]
    }

    constructor New()
      ensures Valid() && fresh(cells)
      ensures IsEmpty(Cells())
    {
      cells := new Cell[9](_ => None);
    }

    constructor FromState(state: Grid)
      ensures Valid() && fresh(cells)
      ensures Cells() == state
    {
      cells := new Cell[9](i requires 0 <= i < 9 => state[i]);
    }

    /** Checked in-place write: rejects a position off the grid or already taken,
        leaving the board as it was. */
    method MakeMove(position: nat, player: Player) returns (r: Result<(), BoardError>)
      requires Valid()
      modifies cells
      ensures r.Err? <==> !IsValidMove(old(Cells()), position)
      ensures r.Err? ==> r.error == InvalidMove(position) && Cells() == old(Cells())
      ensures r.Ok? ==> position < 9 && Cells() == Place(old(Cells()), position, player)
    {
      if !IsValidMove(Cells(), position) {
        return Err(InvalidMove(position));
      }
      cells[position] := Some(player);
      return Ok(());
    }

    function GameState(): GameState
      reads this, cells
      requires Valid()
    {
      GameStateOf(Cells())
    }

    /** A copy whose array is freshly allocated, so writes to it never reach this board. */
    method CloneForSimulation() returns (copy: Board)
      requires Valid()
      ensures fresh(copy) && fresh(copy.cells) && copy.Valid()
      ensures copy.Cells() == Cells()
    {
      copy := new Board.FromState(Cells());
    }
  }

  /** A simulated move on a clone changes the clone and leaves the original untouched. */
  method SimulateOnClone(b: Board, position: nat, player: Player) returns (copy: Board)
    requires b.Valid()
    requires IsValidMove(b.Cells(), position)
    ensures fresh(copy) && copy.Valid()
    ensures b.Cells() == old(b.Cells())
    ensures position < 9 && copy.Cells() == Place(b.Cells(), position, player)
  {
    copy := b.CloneForSimulation();
    var r := copy.MakeMove(position, player);
    assert r.Ok?;
  }
}
