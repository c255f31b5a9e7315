/**
 * The game state of connect4.js (`board`, `currPlayer`, `moves`) as a value,
 * with one step function per handler: a click (`handleClick`), the undo
 * button and the reset button. The `Game` class in module Connect4 runs
 * these steps in place; the properties of the game are proved here.
 */
module Engine {
  import opened Wrappers
  import opened Board

  /** An entry of `moves`: `{x, y, player}`. */
  datatype Move = Move(x: int, y: int, player: int)

  datatype State = State(board: Grid, currPlayer: int, moves: seq<Move>)

  /**
   * Which way a click ended: the `isNaN` return, the full-column return,
   * the win message, the tie message, or the switch of players.
   */
  datatype Outcome = NotANumber | ColumnFull | Won | Tied | Continued

  /** `currPlayer === 1 ? 2 : 1` */
  function Toggle(p: int): int
  {
    if p == 1 then 2 else 1
  }

  /** `makeBoard()`: HEIGHT fresh rows pushed after the rows already there. */
  function MakeBoard(b: Grid): Grid
  {
    b + EmptyRows(HEIGHT)
  }

  /** The state after the script's top level: player 1 to move, no moves, one `makeBoard()`. */
  function Initial(): (r: State)
    ensures Valid(r) && Accounted(r)
    ensures |r.board| == HEIGHT && Occupied(r.board) == {}
  {
    assert MakeBoard([]) == EmptyRows(HEIGHT);
    State(MakeBoard([]), 1, [])
  }

  /** The cell a move names, as (row, column). */
  function At(m: Move): (int, int)
  {
    (m.y, m.x)
  }

  /**
   * Every move was made by player 1 or 2 and names a cell of the grid that
   * holds its player's piece, and no two moves name the same cell.
   */
  predicate MovesHeld(b: Grid, moves: seq<Move>)
    requires Shaped(b)
  {
    (forall i :: 0 <= i < |moves| ==>
       (moves[i].player == 1 || moves[i].player == 2) &&
       InGrid(moves[i].y, moves[i].x) && b[moves[i].y][moves[i].x] == Taken(moves[i].player)) &&
    DistinctCells(moves)
  }

  /**
   * The invariant every handler keeps: the board is shaped, the rows that
   * later `makeBoard` calls appended are never written, the active player
   * is 1 or 2, and the moves name distinct cells holding their pieces.
   */
  predicate Valid(s: State)
  {
    Shaped(s.board) &&
    (forall y, x :: HEIGHT <= y < |s.board| && 0 <= x < WIDTH ==> s.board[y][x] == Empty) &&
    (s.currPlayer == 1 || s.currPlayer == 2) &&
    MovesHeld(s.board, s.moves)
  }

  /** The non-null cells of the board (rows past HEIGHT are always empty under Valid). */
  function Occupied(b: Grid): set<(int, int)>
    requires Shaped(b)
  {
    set y, x | 0 <= y < HEIGHT && 0 <= x < WIDTH && b[y][x].Taken? :: (y, x)
  }

  /** The cells the moves name. */
  function MoveCells(moves: seq<Move>): set<(int, int)>
  {
    set i | 0 <= i < |moves| :: At(moves[i])
  }

  /** Every piece on the board was put there by a move still on the stack. */
  predicate Accounted(s: State)
    requires Shaped(s.board)
  {
    Occupied(s.board) <= MoveCells(s.moves)
  }

  /**
   * The logic of `handleClick` for a click whose target parses to `target`
   * (None when `+evt.target.id` is NaN).
   */
  function DropStep(s: State, target: Option<int>): (State, Outcome)
    requires Shaped(s.board)
  {
    match target
    case None => (s, NotANumber)
    case Some(x) =>
      match SpotForCol(s.board, x)
      case None => (s, ColumnFull)
      case Some(y) =>
        var b := Place(s.board, y, x, Taken(s.currPlayer));
        var moves := s.moves + [Move(x, y, s.currPlayer)];
        if HasFour(b, s.currPlayer) then (State(b, s.currPlayer, moves), Won)
        else if Full(b) then (State(b, s.currPlayer, moves), Tied)
        else (State(b, Toggle(s.currPlayer), moves), Continued)
  }

  /** The undo handler: pop the last move, null its cell, toggle the active player. */
  function UndoStep(s: State): State
    requires Valid(s)
  {
    if |s.moves| == 0 then s
    else
      var last := s.moves[|s.moves| - 1];
      State(Place(s.board, last.y, last.x, Empty), Toggle(s.currPlayer), s.moves[..|s.moves| - 1])
  }

  /** The reset handler: empty `moves`, player 1 to move, and `makeBoard()` once more. */
  function ResetStep(s: State): State
  {
    State(MakeBoard(s.board), 1, [])
  }

  // ---------------------------------------------------------------------------
  // Drop

  /** A click that is not a number, or on a full column, changes nothing; any other click changes the state. */
  lemma DropIgnoredIff(s: State, target: Option<int>)
    requires Valid(s)
    ensures DropStep(s, target).1 == NotANumber <==> target.None?
    ensures DropStep(s, target).1 == ColumnFull <==> target.Some? && SpotForCol(s.board, target.value).None?
    ensures DropStep(s, target).0 == s <==> DropStep(s, target).1 in {NotANumber, ColumnFull}
  {
    var r := DropStep(s, target);
    if r.1 !in {NotANumber, ColumnFull} {
      assert |r.0.moves| == |s.moves| + 1;
    }
  }

  /**
   * A successful click sets exactly one cell, the lowest free one of the
   * column, to the active player, and pushes `{x, y, player}` onto `moves`.
   */
  lemma DropPlacesOnePiece(s: State, x: int)
    requires Valid(s)
    requires SpotForCol(s.board, x).Some?
    ensures var y := SpotForCol(s.board, x).value;
            var r := DropStep(s, Some(x)).0;
            InGrid(y, x) && s.board[y][x] == Empty && r.board[y][x] == Taken(s.currPlayer) &&
            (forall y' :: y < y' < HEIGHT ==> s.board[y'][x] != Empty) &&
            |r.board| == |s.board| &&
            (forall y', x' :: 0 <= y' < |s.board| && 0 <= x' < WIDTH && (y', x') != (y, x) ==>
               r.board[y'][x'] == s.board[y'][x']) &&
            r.moves == s.moves + [Move(x, y, s.currPlayer)]
  {
  }

  /**
   * After a successful click: a win is reported exactly when `checkForWin`
   * holds on the new board, a tie exactly when it does not and every cell is
   * non-null, and the players switch only when neither happened.
   */
  lemma DropOutcome(s: State, x: int)
    requires Valid(s)
    requires SpotForCol(s.board, x).Some?
    ensures var r := DropStep(s, Some(x));
            (r.1 == Won <==> HasFour(r.0.board, s.currPlayer)) &&
            (r.1 == Tied <==> !HasFour(r.0.board, s.currPlayer) && Full(r.0.board)) &&
            (r.1 == Continued <==> !HasFour(r.0.board, s.currPlayer) && !Full(r.0.board)) &&
            r.0.currPlayer == (if r.1 == Continued then Toggle(s.currPlayer) else s.currPlayer) &&
            r.0.currPlayer != (if r.1 == Continued then s.currPlayer else Toggle(s.currPlayer))
  {
  }

  /** Cells occupied after `board[y][x] = piece` on a free cell. */
  lemma OccupiedAfterPlace(b: Grid, y: int, x: int, p: int)
    requires Shaped(b) && InGrid(y, x) && b[y][x] == Empty
    ensures Shaped(Place(b, y, x, Taken(p)))
    ensures Occupied(Place(b, y, x, Taken(p))) == Occupied(b) + {(y, x)}
  {
    var b' := Place(b, y, x, Taken(p));
    forall c | c in Occupied(b') ensures c in Occupied(b) + {(y, x)} {
      if c != (y, x) {
        assert b'[c.0][c.1] == b[c.0][c.1];
      }
    }
    forall c | c in Occupied(b) + {(y, x)} ensures c in Occupied(b') {
      if c != (y, x) {
        assert b'[c.0][c.1] == b[c.0][c.1];
      }
    }
  }

  /** Cells occupied after `board[y][x] = null`. */
  lemma OccupiedAfterClear(b: Grid, y: int, x: int)
    requires Shaped(b) && InGrid(y, x)
    ensures Shaped(Place(b, y, x, Empty))
    ensures Occupied(Place(b, y, x, Empty)) == Occupied(b) - {(y, x)}
  {
    var b' := Place(b, y, x, Empty);
    forall c | c in Occupied(b') ensures c in Occupied(b) - {(y, x)} {
      assert b'[c.0][c.1] == b[c.0][c.1];
    }
    forall c | c in Occupied(b) - {(y, x)} ensures c in Occupied(b') {
      assert b'[c.0][c.1] == b[c.0][c.1];
    }
  }

  lemma MoveCellsAppend(moves: seq<Move>, m: Move)
    ensures MoveCells(moves + [m]) == MoveCells(moves) + {At(m)}
  {
    var ms := moves + [m];
    forall c | c in MoveCells(ms) ensures c in MoveCells(moves) + {At(m)} {
      var i :| 0 <= i < |ms| && At(ms[i]) == c;
      if i < |moves| {
        assert ms[i] == moves[i];
      }
    }
    forall c | c in MoveCells(moves) + {At(m)} ensures c in MoveCells(ms) {
      if c == At(m) {
        assert ms[|moves|] == m;
      } else {
        var i :| 0 <= i < |moves| && At(moves[i]) == c;
        assert ms[i] == moves[i];
      }
    }
  }

  /** Every handler keeps the invariant; here, a click. */
  lemma DropPreservesValid(s: State, target: Option<int>)
    requires Valid(s)
    ensures Valid(DropStep(s, target).0)
    ensures Accounted(s) ==> Accounted(DropStep(s, target).0)
    ensures |DropStep(s, target).0.board| == |s.board|
  {
    if target.Some? && SpotForCol(s.board, target.value).Some? {
      var x := target.value;
      var y := SpotForCol(s.board, x).value;
      var r := DropStep(s, target).0;
      var m := Move(x, y, s.currPlayer);
      assert r.moves == s.moves + [m];
      forall i | 0 <= i < |s.moves| ensures At(s.moves[i]) != (y, x) {
        assert s.board[s.moves[i].y][s.moves[i].x] == Taken(s.moves[i].player);
      }
      forall i | 0 <= i < |r.moves|
        ensures (r.moves[i].player == 1 || r.moves[i].player == 2)
        ensures InGrid(r.moves[i].y, r.moves[i].x) && r.board[r.moves[i].y][r.moves[i].x] == Taken(r.moves[i].player)
      {
        if i < |s.moves| {
          assert r.moves[i] == s.moves[i];
        }
      }
      forall i, j | 0 <= i < j < |r.moves| ensures At(r.moves[i]) != At(r.moves[j]) {
        assert r.moves[i] == s.moves[i];
        if j < |s.moves| {
          assert r.moves[j] == s.moves[j];
        }
      }
      if Accounted(s) {
        OccupiedAfterPlace(s.board, y, x, s.currPlayer);
        MoveCellsAppend(s.moves, m);
      }
    }
  }

  // ---------------------------------------------------------------------------
  // Undo

  /** Undo with no moves is a no-op. */
  lemma UndoEmptyIsNoop(s: State)
    requires Valid(s) && s.moves == []
    ensures UndoStep(s) == s
  {
  }

  /**
   * Otherwise undo pops the last move, nulls exactly that cell and toggles
   * the active player.
   */
  lemma UndoClearsLastMove(s: State)
    requires Valid(s) && s.moves != []
    ensures var last := s.moves[|s.moves| - 1];
            var r := UndoStep(s);
            r.moves == s.moves[..|s.moves| - 1] &&
            s.board[last.y][last.x] == Taken(last.player) && r.board[last.y][last.x] == Empty &&
            |r.board| == |s.board| &&
            (forall y, x :: 0 <= y < |s.board| && 0 <= x < WIDTH && (y, x) != At(last) ==>
               r.board[y][x] == s.board[y][x]) &&
            r.currPlayer == Toggle(s.currPlayer) && r.currPlayer != s.currPlayer
  {
  }

  /** Every handler keeps the invariant; here, the undo button. */
  lemma UndoPreservesValid(s: State)
    requires Valid(s)
    ensures Valid(UndoStep(s))
    ensures Accounted(s) ==> Accounted(UndoStep(s))
    ensures |UndoStep(s).board| == |s.board|
  {
    if s.moves != [] {
      var n := |s.moves| - 1;
      var last := s.moves[n];
      var r := UndoStep(s);
      forall i | 0 <= i < |r.moves|
        ensures (r.moves[i].player == 1 || r.moves[i].player == 2)
        ensures InGrid(r.moves[i].y, r.moves[i].x) && r.board[r.moves[i].y][r.moves[i].x] == Taken(r.moves[i].player)
      {
        assert r.moves[i] == s.moves[i];
        assert At(s.moves[i]) != At(last);
      }
      if Accounted(s) {
        OccupiedAfterClear(s.board, last.y, last.x);
        forall c | c in Occupied(r.board) ensures c in MoveCells(r.moves) {
          var i :| 0 <= i < |s.moves| && At(s.moves[i]) == c;
          assert i != n;
          assert r.moves[i] == s.moves[i];
        }
      }
    }
  }

  /**
   * Undo right after a click that neither won nor tied restores the board,
   * the moves and the active player exactly.
   */
  lemma UndoInvertsContinuedDrop(s: State, target: Option<int>)
    requires Valid(s)
    requires DropStep(s, target).1 == Continued
    ensures Valid(DropStep(s, target).0)
    ensures UndoStep(DropStep(s, target).0) == s
  {
    DropPreservesValid(s, target);
    var x := target.value;
    var y := SpotForCol(s.board, x).value;
    var r := DropStep(s, target).0;
    var u := UndoStep(r);
    assert r.moves[|r.moves| - 1] == Move(x, y, s.currPlayer);
    assert u.moves == s.moves;
    assert u.board[y] == s.board[y];
    assert u.board == s.board;
  }

  // ---------------------------------------------------------------------------
  // The count of pieces

  /** No two moves name the same cell. */
  predicate DistinctCells(moves: seq<Move>)
  {
    forall i, j :: 0 <= i < j < |moves| ==> At(moves[i]) != At(moves[j])
  }

  lemma {:induction false} MoveCellsCount(moves: seq<Move>)
    requires DistinctCells(moves)
    ensures |MoveCells(moves)| == |moves|
  {
    if moves != [] {
      var n := |moves| - 1;
      var front := moves[..n];
      assert DistinctCells(front) by {
        forall i, j | 0 <= i < j < |front| ensures At(front[i]) != At(front[j]) {
          assert front[i] == moves[i] && front[j] == moves[j];
        }
      }
      MoveCellsCount(front);
      MoveCellsAppend(front, moves[n]);
      assert front + [moves[n]] == moves;
      assert At(moves[n]) !in MoveCells(front) by {
        forall i | 0 <= i < |front| ensures At(front[i]) != At(moves[n]) {
          assert front[i] == moves[i];
        }
      }
    }
  }

  /**
   * While every piece on the board belongs to a move on the stack, the
   * number of non-null cells equals `moves.length`.
   */
  lemma PieceCountIsMoveCount(s: State)
    requires Valid(s) && Accounted(s)
    ensures |Occupied(s.board)| == |s.moves|
  {
    forall c | c in MoveCells(s.moves) ensures c in Occupied(s.board) {
      var i :| 0 <= i < |s.moves| && At(s.moves[i]) == c;
      assert s.board[c.0][c.1] == Taken(s.moves[i].player);
    }
    assert Occupied(s.board) == MoveCells(s.moves);
    MoveCellsCount(s.moves);
  }

  // ---------------------------------------------------------------------------
  // Reset

  /**
   * Reset empties `moves` and makes player 1 active; its `makeBoard` call
   * appends HEIGHT null rows and leaves every existing row, pieces included,
   * as it was.
   */
  lemma ResetAppendsRows(s: State)
    requires Valid(s)
    ensures var r := ResetStep(s);
            r.moves == [] && r.currPlayer == 1 &&
            |r.board| == |s.board| + HEIGHT && r.board[..|s.board|] == s.board &&
            (forall y, x :: |s.board| <= y < |r.board| && 0 <= x < WIDTH ==> r.board[y][x] == Empty)
  {
  }

  /** Every handler keeps the invariant; here, the reset button. */
  lemma ResetPreservesValid(s: State)
    requires Valid(s)
    ensures Valid(ResetStep(s))
    ensures Occupied(ResetStep(s).board) == Occupied(s.board)
  {
    var b := ResetStep(s).board;
    assert forall y :: 0 <= y < |s.board| ==> b[y] == s.board[y];
    assert forall y :: |s.board| <= y < |b| ==> b[y] == EmptyRow();
  }

  // ---------------------------------------------------------------------------
  // Runs of events

  /** One event the page hands to a handler: a click on the board, or one of the two buttons. */
  datatype Event = Click(target: Option<int>) | UndoButton | ResetButton

  /** The state after the handler of `e` has run. */
  function Handle(s: State, e: Event): (r: State)
    requires Valid(s)
    ensures Valid(r)
    ensures !e.ResetButton? && Accounted(s) ==> Accounted(r)
  {
    match e
    case Click(target) => DropPreservesValid(s, target); DropStep(s, target).0
    case UndoButton => UndoPreservesValid(s); UndoStep(s)
    case ResetButton => ResetPreservesValid(s); ResetStep(s)
  }

  /** The events handled one at a time, first to last. */
  function Run(s: State, events: seq<Event>): (r: State)
    requires Valid(s)
    ensures Valid(r)
    ensures Accounted(s) && (forall i :: 0 <= i < |events| ==> !events[i].ResetButton?) ==> Accounted(r)
    decreases |events|
  {
    if events == [] then s
    else Run(Handle(s, events[0]), events[1..])
  }

  /**
   * From the initial state, whatever clicks and undos happen, the number of
   * non-null cells equals `moves.length`.
   */
  lemma PieceCountAfterClicksAndUndos(events: seq<Event>)
    requires forall i :: 0 <= i < |events| ==> !events[i].ResetButton?
    ensures |Occupied(Run(Initial(), events).board)| == |Run(Initial(), events).moves|
  {
    PieceCountIsMoveCount(Run(Initial(), events));
  }
}
