/**
 * The game of connect4.js with its globals `board`, `currPlayer` and `moves`
 * held by one object, and the DOM left out. Each handler changes the fields
 * in place exactly as the matching step function of module Engine says.
 */
module Connect4 {
  import opened Wrappers
  import opened Board
  import opened Engine

  class Game {
    var board: Grid
    var currPlayer: int
    var moves: seq<Move>

    /** The fields as a value of the engine's state. */
    function Snapshot(): State
      reads this
    {
      State(board, currPlayer, moves)
    }

    ghost predicate Valid()
      reads this
    {
      Engine.Valid(Snapshot())
    }

    /** The script's top level: `currPlayer = 1`, `board = []`, `moves = []`, then `makeBoard()`. */
    constructor ()
      ensures Snapshot() == Initial()
      ensures Valid() && Accounted(Snapshot())
    {
      board, currPlayer, moves := [], 1, [];
      new;
      MakeBoard();
    }

    /** `makeBoard`: push HEIGHT rows of WIDTH nulls onto `board`. */
    method MakeBoard()
      modifies this
      ensures board == Engine.MakeBoard(old(board))
      ensures currPlayer == old(currPlayer) && moves == old(moves)
    {
      var i := 0;
      while i < HEIGHT
        invariant 0 <= i <= HEIGHT
        invariant board == old(board) + EmptyRows(i)
        invariant currPlayer == old(currPlayer) && moves == old(moves)
      {
        var row: seq<Cell> := [];
        var j := 0;
        while j < WIDTH
          invariant 0 <= j <= WIDTH
          invariant row == seq(j, _ => Empty)
        {
          row := row + [Empty];
          j := j + 1;
        }
        board := board + [row];
        i := i + 1;
      }
    }

    /** `findSpotForCol(x)`: scan column `x` from the bottom row up for a null cell. */
    method FindSpotForCol(x: int) returns (spot: Option<int>)
      requires Shaped(board)
      ensures spot == SpotForCol(board, x)
    {
      var y := HEIGHT - 1;
      while y >= 0
        invariant -1 <= y < HEIGHT
        invariant forall y' :: y < y' < HEIGHT && 0 <= x < WIDTH ==> board[y'][x] != Empty
      {
        if IsNull(board, y, x) {
          return Some(y);
        }
        y := y - 1;
      }
      return None;
    }

    /**
     * `checkForWin()`: try the four lines of every anchor, row by row, and
     * stop at the first one that wins for `currPlayer`.
     */
    method CheckForWin() returns (won: bool)
      requires Shaped(board)
      ensures won <==> HasFour(board, currPlayer)
    {
      var y := 0;
      while y < HEIGHT
        invariant 0 <= y <= HEIGHT
        invariant forall y', x' :: 0 <= y' < y && 0 <= x' < WIDTH ==> !AnyLineAt(board, currPlayer, y', x')
      {
        var x := 0;
        while x < WIDTH
          invariant 0 <= x <= WIDTH
          invariant forall y', x' :: 0 <= y' < y && 0 <= x' < WIDTH ==> !AnyLineAt(board, currPlayer, y', x')
          invariant forall x' :: 0 <= x' < x ==> !AnyLineAt(board, currPlayer, y, x')
        {
          if Win(board, currPlayer, Horiz(y, x)) || Win(board, currPlayer, Vert(y, x)) ||
             Win(board, currPlayer, DiagDR(y, x)) || Win(board, currPlayer, DiagDL(y, x))
          {
            assert AnyLineAt(board, currPlayer, y, x);
            return true;
          }
          x := x + 1;
        }
        y := y + 1;
      }
      return false;
    }

    /** The non-DOM part of `handleClick`. */
    method HandleClick(target: Option<int>) returns (outcome: Outcome)
      requires Valid()
      modifies this
      ensures Valid()
      ensures (Snapshot(), outcome) == DropStep(old(Snapshot()), target)
    {
      ghost var s := Snapshot();
      DropPreservesValid(s, target);
      if target.None? {
        return NotANumber;
      }
      var x := target.value;
      var y := FindSpotForCol(x);
      if y.None? {
        return ColumnFull;
      }
      board := board[y.value := board[y.value][x := Taken(currPlayer)]];
      moves := moves + [Move(x, y.value, currPlayer)];
      var won := CheckForWin();
      if won {
        return Won;
      }
      if Full(board) {
        return Tied;
      }
      currPlayer := if currPlayer == 1 then 2 else 1;
      outcome := Continued;
    }

    /** The undo button's handler. */
    method Undo()
      requires Valid()
      modifies this
      ensures Valid()
      ensures Snapshot() == UndoStep(old(Snapshot()))
    {
      ghost var s := Snapshot();
      UndoPreservesValid(s);
      if |moves| == 0 {
        return;
      }
      var lastMove := moves[|moves| - 1];
      moves := moves[..|moves| - 1];
      board := board[lastMove.y := board[lastMove.y][lastMove.x := Empty]];
      currPlayer := if currPlayer == 1 then 2 else 1;
    }

    /** The reset button's handler. */
    method Reset()
      requires Valid()
      modifies this
      ensures Valid()
      ensures Snapshot() == ResetStep(old(Snapshot()))
    {
      ghost var s := Snapshot();
      ResetPreservesValid(s);
      moves := [];
      currPlayer := 1;
      MakeBoard();
    }
  }
}
