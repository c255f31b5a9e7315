/**
 * The Connect Four grid of connect4.js as a value: the cells, the column-drop
 * search (`findSpotForCol`), the four-in-a-row test (`checkForWin` and its
 * helper `_win`) and the tie test.
 *
 * `board[y][x]` is row `y` (row 0 at the top, row HEIGHT - 1 at the bottom)
 * and column `x`. The source's board is a growable array of rows: it holds at
 * least HEIGHT rows. Every indexed read `board[y][x]` uses rows 0 .. HEIGHT - 1;
 * only the tie test, which walks the whole array, reads the rows past them.
 */
module Board {
  import opened Wrappers

  const WIDTH: int := 7
  const HEIGHT: int := 6

  /** A cell: `null` in the source, or the number of the player whose piece sits there. */
  datatype Cell = Empty | Taken(player: int)

  type Grid = seq<seq<Cell>>

  /** The row that the inner loop of `makeBoard` builds. */
  function EmptyRow(): seq<Cell>
  {
    seq(WIDTH, _ => Empty)
  }

  /** `n` fresh rows, as the outer loop of `makeBoard` pushes them. */
  function EmptyRows(n: nat): seq<seq<Cell>>
  {
    seq(n, _ => EmptyRow())
  }

  /** At least HEIGHT rows, each WIDTH cells wide. */
  predicate Shaped(b: Grid)
  {
    |b| >= HEIGHT && forall y :: 0 <= y < |b| ==> |b[y]| == WIDTH
  }

  predicate InGrid(y: int, x: int)
  {
    0 <= y < HEIGHT && 0 <= x < WIDTH
  }

  /**
   * `board[y][x] === null`. An index outside the row reads `undefined`,
   * which is not `null`, so such a cell never counts as free.
   */
  predicate IsNull(b: Grid, y: int, x: int)
    requires 0 <= y < |b|
  {
    0 <= x < |b[y]| && b[y][x] == Empty
  }

  /**
   * The downward scan of `findSpotForCol` from row `top` to row 0: the
   * largest free row at most `top` in column `x`, or None.
   */
  function LowestNull(b: Grid, x: int, top: int): (r: Option<int>)
    requires -1 <= top < |b|
    ensures r.Some? ==> 0 <= r.value <= top && 0 <= x < |b[r.value]| && b[r.value][x] == Empty
    ensures r.Some? ==> forall y :: r.value < y <= top && 0 <= x < |b[y]| ==> b[y][x] != Empty
    ensures r.None? ==> forall y :: 0 <= y <= top && 0 <= x < |b[y]| ==> b[y][x] != Empty
    decreases top + 1
  {
    if top < 0 then None
    else if IsNull(b, top, x) then Some(top)
    else LowestNull(b, x, top - 1)
  }

  /**
   * `findSpotForCol(x)`: the row a piece dropped into column `x` lands in,
   * i.e. the largest free row, or None when column `x` has no free row
   * (which is also the answer for a column outside the grid).
   */
  function SpotForCol(b: Grid, x: int): (r: Option<int>)
    requires Shaped(b)
    ensures r.Some? ==> 0 <= r.value < HEIGHT && 0 <= x < WIDTH && b[r.value][x] == Empty
    ensures r.Some? ==> forall y :: r.value < y < HEIGHT ==> b[y][x] != Empty
    ensures r.None? ==> forall y :: 0 <= y < HEIGHT && 0 <= x < WIDTH ==> b[y][x] != Empty
  {
    LowestNull(b, x, HEIGHT - 1)
  }

  /** A column index outside the grid is treated exactly like a full column. */
  lemma OutsideColumnHasNoSpot(b: Grid, x: int)
    requires Shaped(b)
    requires x < 0 || x >= WIDTH
    ensures SpotForCol(b, x) == None
  {
  }

  /** The tie test: every cell of every row of the board is non-null. */
  predicate Full(b: Grid)
  {
    forall y, x :: 0 <= y < |b| && 0 <= x < |b[y]| ==> b[y][x].Taken?
  }

  /**
   * `_win(cells)`: every coordinate lies inside HEIGHT x WIDTH and holds a
   * piece of player `p`.
   */
  predicate Win(b: Grid, p: int, cells: seq<(int, int)>)
    requires Shaped(b)
  {
    forall i :: 0 <= i < |cells| ==>
      InGrid(cells[i].0, cells[i].1) && b[cells[i].0][cells[i].1] == Taken(p)
  }

  /** The four candidate lines anchored at (y, x). */
  function Horiz(y: int, x: int): seq<(int, int)>
  {
    [(y, x), (y, x + 1), (y, x + 2), (y, x + 3)]
  }

  function Vert(y: int, x: int): seq<(int, int)>
  {
    [(y, x), (y + 1, x), (y + 2, x), (y + 3, x)]
  }

  function DiagDR(y: int, x: int): seq<(int, int)>
  {
    [(y, x), (y + 1, x + 1), (y + 2, x + 2), (y + 3, x + 3)]
  }

  function DiagDL(y: int, x: int): seq<(int, int)>
  {
    [(y, x), (y + 1, x - 1), (y + 2, x - 2), (y + 3, x - 3)]
  }

  /** The test made for one anchor: some line from (y, x) wins for `p`. */
  predicate AnyLineAt(b: Grid, p: int, y: int, x: int)
    requires Shaped(b)
  {
    Win(b, p, Horiz(y, x)) || Win(b, p, Vert(y, x)) || Win(b, p, DiagDR(y, x)) || Win(b, p, DiagDL(y, x))
  }

  /** What `checkForWin` decides: some anchor of the grid starts a winning line for `p`. */
  predicate HasFour(b: Grid, p: int)
    requires Shaped(b)
  {
    exists y, x :: 0 <= y < HEIGHT && 0 <= x < WIDTH && AnyLineAt(b, p, y, x)
  }

  /** `_win` on a list of four coordinates, cell by cell. */
  lemma WinOfFour(b: Grid, p: int, c0: (int, int), c1: (int, int), c2: (int, int), c3: (int, int))
    requires Shaped(b)
    ensures Win(b, p, [c0, c1, c2, c3]) <==>
      (InGrid(c0.0, c0.1) && b[c0.0][c0.1] == Taken(p)) &&
      (InGrid(c1.0, c1.1) && b[c1.0][c1.1] == Taken(p)) &&
      (InGrid(c2.0, c2.1) && b[c2.0][c2.1] == Taken(p)) &&
      (InGrid(c3.0, c3.1) && b[c3.0][c3.1] == Taken(p))
  {
    var cells := [c0, c1, c2, c3];
    assert cells[0] == c0 && cells[1] == c1 && cells[2] == c2 && cells[3] == c3;
  }

  /** Four pieces of `p` side by side in row `y` are a win, whatever order they came in. */
  lemma HorizontalRunWins(b: Grid, p: int, y: int, x: int)
    requires Shaped(b)
    requires InGrid(y, x) && x + 3 < WIDTH
    requires b[y][x] == Taken(p) && b[y][x + 1] == Taken(p) && b[y][x + 2] == Taken(p) && b[y][x + 3] == Taken(p)
    ensures HasFour(b, p)
  {
    WinOfFour(b, p, (y, x), (y, x + 1), (y, x + 2), (y, x + 3));
    assert AnyLineAt(b, p, y, x);
  }

  /** Four pieces of `p` stacked in column `x` are a win. */
  lemma VerticalRunWins(b: Grid, p: int, y: int, x: int)
    requires Shaped(b)
    requires InGrid(y, x) && y + 3 < HEIGHT
    requires b[y][x] == Taken(p) && b[y + 1][x] == Taken(p) && b[y + 2][x] == Taken(p) && b[y + 3][x] == Taken(p)
    ensures HasFour(b, p)
  {
    WinOfFour(b, p, (y, x), (y + 1, x), (y + 2, x), (y + 3, x));
    assert AnyLineAt(b, p, y, x);
  }

  /** `board[y][x] = c`. */
  function Place(b: Grid, y: int, x: int, c: Cell): (r: Grid)
    requires 0 <= y < |b| && 0 <= x < |b[y]|
  {
    b[y := b[y][x := c]]
  }

  /** The four candidate lines anchored at (y, x), in the order `checkForWin` tries them. */
  function Lines(y: int, x: int): seq<seq<(int, int)>>
  {
    [Horiz(y, x), Vert(y, x), DiagDR(y, x), DiagDL(y, x)]
  }

  /**
   * Placing a piece of `p` can only create a win for `p` through the placed
   * cell: the full-board rescan finds nothing that a check of the lines
   * through (y, x) would miss.
   */
  lemma NewWinGoesThroughPlacedCell(b: Grid, p: int, y: int, x: int)
    requires Shaped(b) && InGrid(y, x)
    requires !HasFour(b, p)
    requires HasFour(Place(b, y, x, Taken(p)), p)
    ensures exists y0, x0, k :: InGrid(y0, x0) && 0 <= k < 4 &&
              Win(Place(b, y, x, Taken(p)), p, Lines(y0, x0)[k]) && (y, x) in Lines(y0, x0)[k]
  {
    var b' := Place(b, y, x, Taken(p));
    var y0, x0 :| 0 <= y0 < HEIGHT && 0 <= x0 < WIDTH && AnyLineAt(b', p, y0, x0);
    assert !AnyLineAt(b, p, y0, x0);
    var k := if Win(b', p, Horiz(y0, x0)) then 0
             else if Win(b', p, Vert(y0, x0)) then 1
             else if Win(b', p, DiagDR(y0, x0)) then 2
             else 3;
    var line := Lines(y0, x0)[k];
    assert Win(b', p, line);
    WinAvoidingCellSurvives(b, p, y, x, line);
  }

  /** A line that wins after `board[y][x] = p` and does not pass through (y, x) already won before. */
  lemma WinAvoidingCellSurvives(b: Grid, p: int, y: int, x: int, line: seq<(int, int)>)
    requires Shaped(b) && InGrid(y, x)
    requires Win(Place(b, y, x, Taken(p)), p, line)
    ensures (y, x) !in line ==> Win(b, p, line)
  {
    if (y, x) !in line {
      forall i | 0 <= i < |line|
        ensures InGrid(line[i].0, line[i].1) && b[line[i].0][line[i].1] == Taken(p)
      {
        assert line[i] in line;
      }
    }
  }

  /** A four-in-a-row for `p` needs four cells holding pieces of `p`. */
  lemma WinNeedsFourPieces(b: Grid, p: int, pieces: set<(int, int)>)
    requires Shaped(b)
    requires forall y, x :: InGrid(y, x) && b[y][x] == Taken(p) ==> (y, x) in pieces
    ensures HasFour(b, p) ==> |pieces| >= 4
  {
    if HasFour(b, p) {
      var y0, x0 :| 0 <= y0 < HEIGHT && 0 <= x0 < WIDTH && AnyLineAt(b, p, y0, x0);
      var k := if Win(b, p, Horiz(y0, x0)) then 0
               else if Win(b, p, Vert(y0, x0)) then 1
               else if Win(b, p, DiagDR(y0, x0)) then 2
               else 3;
      var line := Lines(y0, x0)[k];
      assert Win(b, p, line);
      assert line[0] in pieces && line[1] in pieces && line[2] in pieces && line[3] in pieces;
      var four := {line[0], line[1], line[2], line[3]};
      assert |four| == 4;
      SubsetCard(four, pieces);
    }
  }

  lemma {:induction false} SubsetCard<T>(a: set<T>, b: set<T>)
    requires a <= b
    ensures |a| <= |b|
    decreases |b|
  {
    if a != {} {
      var e :| e in a;
      SubsetCard(a - {e}, b - {e});
    }
  }
}
