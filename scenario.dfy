/**
 * A short game on the first board: clicks on columns 0, 0, 1, 1, 2, 2, 3.
 * Player 1 fills the bottom row at columns 0 to 3, player 2 the row above
 * at columns 0 to 2, and the seventh click wins for player 1.
 */
module Scenario {
  import opened Wrappers
  import opened Board
  import opened Engine
  import opened Findings

  /** A state of the first board whose pieces of player 1 and 2 are exactly `ones` and `twos`. */
  ghost predicate Layout(s: State, ones: set<(int, int)>, twos: set<(int, int)>, p: int)
  {
    Valid(s) && |s.board| == HEIGHT && s.currPlayer == p && ones !! twos &&
    forall y, x :: InGrid(y, x) ==>
      s.board[y][x] == (if (y, x) in ones then Taken(1) else if (y, x) in twos then Taken(2) else Empty)
  }

  /** A click that lands on (y, x), neither wins nor ties, and passes the turn. */
  lemma ClickContinues(s: State, ones: set<(int, int)>, twos: set<(int, int)>, p: int, x: int, y: int)
    requires Layout(s, ones, twos, p)
    requires InGrid(y, x) && (y, x) !in ones + twos
    requires forall y' :: y < y' < HEIGHT ==> (y', x) in ones + twos
    requires !HasFour(Place(s.board, y, x, Taken(p)), p) && !Full(Place(s.board, y, x, Taken(p)))
    ensures DropStep(s, Some(x)).1 == Continued
    ensures if p == 1 then Layout(DropStep(s, Some(x)).0, ones + {(y, x)}, twos, 2)
            else Layout(DropStep(s, Some(x)).0, ones, twos + {(y, x)}, 1)
  {
    assert SpotForCol(s.board, x) == Some(y);
    DropPreservesValid(s, Some(x));
  }

  /**
   * A piece landing on (y, x) neither wins nor fills the board when its
   * player then holds fewer than four cells and the top-right cell stays free.
   */
  lemma FewPiecesNeitherWinNorTie(s: State, ones: set<(int, int)>, twos: set<(int, int)>, p: int, x: int, y: int)
    requires Layout(s, ones, twos, p)
    requires InGrid(y, x) && (y, x) !in ones + twos
    requires (0, WIDTH - 1) !in ones + twos + {(y, x)}
    requires if p == 1 then |ones + {(y, x)}| < 4 else |twos + {(y, x)}| < 4
    ensures !HasFour(Place(s.board, y, x, Taken(p)), p) && !Full(Place(s.board, y, x, Taken(p)))
  {
    var b := Place(s.board, y, x, Taken(p));
    var mine := if p == 1 then ones + {(y, x)} else twos + {(y, x)};
    WinNeedsFourPieces(b, p, mine);
    assert b[0][WIDTH - 1] == Empty;
  }

  /**
   * A click that lands on (y, x) and completes line `k` anchored at (y0, x0),
   * every cell of which then holds a piece of the mover: the click is
   * reported as a win and the mover stays the player to move.
   */
  lemma ClickWins(s: State, ones: set<(int, int)>, twos: set<(int, int)>, p: int, x: int, y: int,
                  y0: int, x0: int, k: int)
    requires Layout(s, ones, twos, p)
    requires InGrid(y, x) && (y, x) !in ones + twos
    requires forall y' :: y < y' < HEIGHT ==> (y', x) in ones + twos
    requires InGrid(y0, x0) && 0 <= k < 4
    requires forall i :: 0 <= i < 4 ==>
      InGrid(Lines(y0, x0)[k][i].0, Lines(y0, x0)[k][i].1) &&
      Lines(y0, x0)[k][i] in (if p == 1 then ones else twos) + {(y, x)}
    ensures DropStep(s, Some(x)).1 == Won && DropStep(s, Some(x)).0.currPlayer == p
    ensures |DropStep(s, Some(x)).0.moves| == |s.moves| + 1
  {
    assert SpotForCol(s.board, x) == Some(y);
    var b := Place(s.board, y, x, Taken(p));
    var line := Lines(y0, x0)[k];
    assert |line| == 4;
    assert Win(b, p, line);
    assert AnyLineAt(b, p, y0, x0);
  }

  /** The first board is empty with player 1 to move. */
  lemma InitialLayout()
    ensures Layout(Initial(), {}, {}, 1)
  {
    assert Initial().board == EmptyRows(HEIGHT);
  }

  /** Running two lists of events one after the other is running their concatenation. */
  lemma {:induction false} RunAppend(s: State, a: seq<Event>, b: seq<Event>)
    requires Valid(s)
    ensures Run(s, a + b) == Run(Run(s, a), b)
    decreases |a|
  {
    if a != [] {
      assert (a + b)[0] == a[0] && (a + b)[1..] == a[1..] + b;
      RunAppend(Handle(s, a[0]), a[1..], b);
    } else {
      assert a + b == b;
    }
  }

  /**
   * On the first board (before any reset), player 1 then player 2 click
   * column `x`, whose lowest free row is `y`. When neither piece wins or
   * fills the board, both pieces stay in play and player 1 is to move again.
   */
  lemma TwoClicksInColumn(s: State, ones: set<(int, int)>, twos: set<(int, int)>, x: int, y: int)
    requires Layout(s, ones, twos, 1)
    requires InGrid(y, x) && 1 <= y && (y, x) !in ones + twos && (y - 1, x) !in ones + twos
    requires forall y' :: y < y' < HEIGHT ==> (y', x) in ones + twos
    requires !HasFour(Place(s.board, y, x, Taken(1)), 1) && !Full(Place(s.board, y, x, Taken(1)))
    requires var b1 := Place(s.board, y, x, Taken(1));
             !HasFour(Place(b1, y - 1, x, Taken(2)), 2) && !Full(Place(b1, y - 1, x, Taken(2)))
    ensures Layout(Run(s, [Click(Some(x)), Click(Some(x))]), ones + {(y, x)}, twos + {(y - 1, x)}, 1)
  {
    ClickContinues(s, ones, twos, 1, x, y);
    var s1 := DropStep(s, Some(x)).0;
    assert s1.board == Place(s.board, y, x, Taken(1));
    ClickContinues(s1, ones + {(y, x)}, twos, 2, x, y - 1);
    var s2 := DropStep(s1, Some(x)).0;
    var es := [Click(Some(x)), Click(Some(x))];
    assert Run(s, es) == Run(s1, es[1..]);
    assert Run(s1, es[1..]) == Run(s2, es[2..]);
  }

  /**
   * The pairs of clicks of the opening: on the first board, when each player
   * then holds fewer than four cells and the top-right cell stays free,
   * neither click wins or ties, so TwoClicksInColumn applies.
   */
  lemma TwoFewClicksInColumn(s: State, ones: set<(int, int)>, twos: set<(int, int)>, x: int, y: int)
    requires Layout(s, ones, twos, 1)
    requires InGrid(y, x) && 1 <= y && (y, x) !in ones + twos && (y - 1, x) !in ones + twos
    requires forall y' :: y < y' < HEIGHT ==> (y', x) in ones + twos
    requires (0, WIDTH - 1) !in ones + twos + {(y, x), (y - 1, x)}
    requires |ones + {(y, x)}| < 4 && |twos + {(y - 1, x)}| < 4
    ensures Layout(Run(s, [Click(Some(x)), Click(Some(x))]), ones + {(y, x)}, twos + {(y - 1, x)}, 1)
  {
    FewPiecesNeitherWinNorTie(s, ones, twos, 1, x, y);
    ClickContinues(s, ones, twos, 1, x, y);
    var s1 := DropStep(s, Some(x)).0;
    assert s1.board == Place(s.board, y, x, Taken(1));
    FewPiecesNeitherWinNorTie(s1, ones + {(y, x)}, twos, 2, x, y - 1);
    TwoClicksInColumn(s, ones, twos, x, y);
  }

  /** The six clicks before the winning one: columns 0, 0, 1, 1, 2, 2. */
  function Opening(): seq<Event>
  {
    [Click(Some(0)), Click(Some(0))] + [Click(Some(1)), Click(Some(1))] + [Click(Some(2)), Click(Some(2))]
  }

  lemma ColumnZeroPair(s0: State)
    requires Layout(s0, {}, {}, 1)
    ensures Layout(Run(s0, [Click(Some(0)), Click(Some(0))]), {(HEIGHT - 1, 0)}, {(HEIGHT - 2, 0)}, 1)
  {
    TwoFewClicksInColumn(s0, {}, {}, 0, HEIGHT - 1);
    assert {} + {(HEIGHT - 1, 0)} == {(HEIGHT - 1, 0)};
    assert {} + {(HEIGHT - 2, 0)} == {(HEIGHT - 2, 0)};
  }

  lemma ColumnOnePair(s2: State)
    requires Layout(s2, {(HEIGHT - 1, 0)}, {(HEIGHT - 2, 0)}, 1)
    ensures Layout(Run(s2, [Click(Some(1)), Click(Some(1))]),
                   {(HEIGHT - 1, 0), (HEIGHT - 1, 1)}, {(HEIGHT - 2, 0), (HEIGHT - 2, 1)}, 1)
  {
    TwoFewClicksInColumn(s2, {(HEIGHT - 1, 0)}, {(HEIGHT - 2, 0)}, 1, HEIGHT - 1);
    assert {(HEIGHT - 1, 0)} + {(HEIGHT - 1, 1)} == {(HEIGHT - 1, 0), (HEIGHT - 1, 1)};
    assert {(HEIGHT - 2, 0)} + {(HEIGHT - 2, 1)} == {(HEIGHT - 2, 0), (HEIGHT - 2, 1)};
  }

  lemma ColumnTwoPair(s4: State)
    requires Layout(s4, {(HEIGHT - 1, 0), (HEIGHT - 1, 1)}, {(HEIGHT - 2, 0), (HEIGHT - 2, 1)}, 1)
    ensures Layout(Run(s4, [Click(Some(2)), Click(Some(2))]),
                   {(HEIGHT - 1, 0), (HEIGHT - 1, 1), (HEIGHT - 1, 2)},
                   {(HEIGHT - 2, 0), (HEIGHT - 2, 1), (HEIGHT - 2, 2)}, 1)
  {
    TwoFewClicksInColumn(s4, {(HEIGHT - 1, 0), (HEIGHT - 1, 1)}, {(HEIGHT - 2, 0), (HEIGHT - 2, 1)}, 2, HEIGHT - 1);
    assert {(HEIGHT - 1, 0), (HEIGHT - 1, 1)} + {(HEIGHT - 1, 2)} == {(HEIGHT - 1, 0), (HEIGHT - 1, 1), (HEIGHT - 1, 2)};
    assert {(HEIGHT - 2, 0), (HEIGHT - 2, 1)} + {(HEIGHT - 2, 2)} == {(HEIGHT - 2, 0), (HEIGHT - 2, 1), (HEIGHT - 2, 2)};
  }

  /** The opening leaves player 1 on the bottom row at columns 0 to 2 and player 2 above them. */
  lemma OpeningLayout(s0: State)
    requires Layout(s0, {}, {}, 1)
    ensures Layout(Run(s0, Opening()), {(HEIGHT - 1, 0), (HEIGHT - 1, 1), (HEIGHT - 1, 2)},
                   {(HEIGHT - 2, 0), (HEIGHT - 2, 1), (HEIGHT - 2, 2)}, 1)
  {
    var c0, c1, c2 := [Click(Some(0)), Click(Some(0))], [Click(Some(1)), Click(Some(1))], [Click(Some(2)), Click(Some(2))];
    ColumnZeroPair(s0);
    ColumnOnePair(Run(s0, c0));
    ColumnTwoPair(Run(Run(s0, c0), c1));
    RunAppend(s0, c0, c1);
    RunAppend(s0, c0 + c1, c2);
  }

  /** After the opening, player 1's click on column 3 completes the bottom row. */
  lemma LastClickWins(s6: State)
    requires Layout(s6, {(HEIGHT - 1, 0), (HEIGHT - 1, 1), (HEIGHT - 1, 2)},
                    {(HEIGHT - 2, 0), (HEIGHT - 2, 1), (HEIGHT - 2, 2)}, 1)
    ensures DropStep(s6, Some(3)).1 == Won && DropStep(s6, Some(3)).0.currPlayer == 1
  {
    var ones, twos := {(HEIGHT - 1, 0), (HEIGHT - 1, 1), (HEIGHT - 1, 2)}, {(HEIGHT - 2, 0), (HEIGHT - 2, 1), (HEIGHT - 2, 2)};
    assert (HEIGHT - 1, 3) !in ones + twos;
    assert forall y' :: HEIGHT - 1 < y' < HEIGHT ==> (y', 3) in ones + twos;
    assert Lines(HEIGHT - 1, 0)[0] == [(HEIGHT - 1, 0), (HEIGHT - 1, 1), (HEIGHT - 1, 2), (HEIGHT - 1, 3)];
    ClickWins(s6, ones, twos, 1, 3, HEIGHT - 1, HEIGHT - 1, 0, 0);
  }

  /**
   * From an empty first board with player 1 to move (the initial state, see
   * InitialLayout), the click on column 3 after the opening reports a win
   * for player 1, who stays the player to move; undoing it then makes
   * player 2 the player to move.
   */
  lemma FourInBottomRowWins(s0: State)
    requires Layout(s0, {}, {}, 1)
    ensures var s6 := Run(s0, Opening());
            var r := DropStep(s6, Some(3));
            r.1 == Won && r.0.currPlayer == 1 &&
            Valid(r.0) && UndoStep(r.0).currPlayer == 2
  {
    OpeningLayout(s0);
    var s6 := Run(s0, Opening());
    LastClickWins(s6);
    UndoAfterEndingDrop(s6, Some(3));
  }
}
