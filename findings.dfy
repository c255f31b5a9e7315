/**
 * Two places where connect4.js does not do what its own comments and the
 * rest of the game evidently intend. For each: a lemma about the code as
 * written that exhibits the gap, and a corrected step with the intended
 * property proved. The `Game` class keeps the behaviour as written.
 */
module Findings {
  import opened Wrappers
  import opened Board
  import opened Engine

  // ---------------------------------------------------------------------------
  // 1. The reset handler keeps the old pieces.
  //
  // `makeBoard` pushes fresh rows after the existing ones, and every indexed
  // read `board[y][x]` uses rows 0 .. HEIGHT - 1, so the pieces of the
  // previous game stay in play while `moves` is emptied; and since the tie
  // test walks every row and the appended rows stay null, it can never
  // succeed again.

  /** After a reset the old pieces are all still on the board, yet `moves` is empty. */
  lemma ResetKeepsPieces(s: State)
    requires Valid(s)
    ensures Valid(ResetStep(s)) && ResetStep(s).moves == []
    ensures Occupied(ResetStep(s).board) == Occupied(s.board)
    ensures Accounted(ResetStep(s)) <==> Occupied(s.board) == {}
  {
    ResetPreservesValid(s);
    if Occupied(s.board) != {} {
      var c :| c in Occupied(s.board);
      assert c !in MoveCells(ResetStep(s).moves);
    }
  }

  /** Once a reset has appended rows, no board the game reaches passes the tie test. */
  lemma TieImpossibleAfterReset(s: State)
    requires Valid(s) && |s.board| > HEIGHT
    ensures !Full(s.board)
  {
    assert s.board[HEIGHT][0] == Empty;
  }

  /**
   * The smallest case: player 1 drops into column 0 of the first board, the
   * reset button is pressed, and the next piece in column 0 lands on row
   * HEIGHT - 2, on top of a piece no move accounts for.
   */
  lemma ResetAfterOneDrop()
    ensures var s := DropStep(Initial(), Some(0)).0;
            var r := ResetStep(s);
            Valid(r) && r.moves == [] && r.board[HEIGHT - 1][0] == Taken(1) &&
            SpotForCol(r.board, 0) == Some(HEIGHT - 2) && !Accounted(r)
  {
    var i := Initial();
    assert IsNull(i.board, HEIGHT - 1, 0);
    assert SpotForCol(i.board, 0) == Some(HEIGHT - 1);
    var s := DropStep(i, Some(0)).0;
    DropPreservesValid(i, Some(0));
    var r := ResetStep(s);
    ResetPreservesValid(s);
    assert r.board[HEIGHT - 1][0] == Taken(1);
    assert !IsNull(r.board, HEIGHT - 1, 0) && IsNull(r.board, HEIGHT - 2, 0);
    assert (HEIGHT - 1, 0) in Occupied(r.board);
    ResetKeepsPieces(s);
  }

  /** Reset as evidently intended: a fresh HEIGHT x WIDTH board replaces the old one. */
  function ResetFresh(s: State): (r: State)
    ensures Valid(r) && Accounted(r)
    ensures r.moves == [] && r.currPlayer == 1 && |r.board| == HEIGHT && Occupied(r.board) == {}
  {
    Initial()
  }

  /**
   * After the corrected reset, every column takes its next piece on the
   * bottom row, the board is not full, and the piece count matches the moves.
   */
  lemma ResetFreshEmptiesColumns(s: State, x: int)
    requires 0 <= x < WIDTH
    ensures SpotForCol(ResetFresh(s).board, x) == Some(HEIGHT - 1)
    ensures !Full(ResetFresh(s).board)
    ensures |Occupied(ResetFresh(s).board)| == |ResetFresh(s).moves|
  {
    var b := ResetFresh(s).board;
    assert b == EmptyRows(HEIGHT);
    assert IsNull(b, HEIGHT - 1, x);
    assert b[0][0] == Empty;
  }

  /** After the corrected reset, the piece count matches the moves for every later run of clicks and undos. */
  lemma ResetFreshThenClicksAndUndos(s: State, events: seq<Event>)
    requires forall i :: 0 <= i < |events| ==> !events[i].ResetButton?
    ensures |Occupied(Run(ResetFresh(s), events).board)| == |Run(ResetFresh(s), events).moves|
  {
    PieceCountIsMoveCount(Run(ResetFresh(s), events));
  }

  // ---------------------------------------------------------------------------
  // 2. Undo after a winning or tying click hands the turn to the other player.
  //
  // The undo handler always toggles `currPlayer`, to "switch current player
  // back to previous". That restores the mover only when the click toggled;
  // a click that won or tied did not, so undoing it skips the mover's turn.

  /** Undoing a winning or tying click restores the board and moves, but not the player to move. */
  lemma UndoAfterEndingDrop(s: State, target: Option<int>)
    requires Valid(s)
    requires DropStep(s, target).1 == Won || DropStep(s, target).1 == Tied
    ensures Valid(DropStep(s, target).0)
    ensures UndoStep(DropStep(s, target).0) == s.(currPlayer := Toggle(s.currPlayer))
    ensures UndoStep(DropStep(s, target).0) != s
  {
    DropPreservesValid(s, target);
    var x := target.value;
    var y := SpotForCol(s.board, x).value;
    var r := DropStep(s, target).0;
    var u := UndoStep(r);
    assert r.moves[|r.moves| - 1] == Move(x, y, s.currPlayer);
    assert u.moves == s.moves;
    assert u.board[y] == s.board[y];
    assert u.board == s.board;
  }

  /** Undo as evidently intended: the player who made the undone move is to move again. */
  function UndoRestoringMover(s: State): (r: State)
    requires Valid(s)
    ensures Valid(r)
    ensures s.moves != [] ==> r.currPlayer == s.moves[|s.moves| - 1].player
    ensures s.moves == [] ==> r == s
  {
    UndoPreservesValid(s);
    if |s.moves| == 0 then s
    else UndoStep(s).(currPlayer := s.moves[|s.moves| - 1].player)
  }

  /** The corrected undo inverts every click that placed a piece, whatever its outcome. */
  lemma UndoRestoringMoverInvertsDrop(s: State, target: Option<int>)
    requires Valid(s)
    requires DropStep(s, target).1 in {Won, Tied, Continued}
    ensures Valid(DropStep(s, target).0)
    ensures UndoRestoringMover(DropStep(s, target).0) == s
  {
    DropPreservesValid(s, target);
    var x := target.value;
    var y := SpotForCol(s.board, x).value;
    var r := DropStep(s, target).0;
    var u := UndoRestoringMover(r);
    assert r.moves[|r.moves| - 1] == Move(x, y, s.currPlayer);
    assert u.moves == s.moves;
    assert u.board[y] == s.board[y];
    assert u.board == s.board;
  }
}
