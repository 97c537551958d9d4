/**
 * The board: SIZE x SIZE cells, each empty or holding a tile, and the
 * facts the game keeps about it (every tile's coordinates are its cell's,
 * no tile sits in two cells), the row-major list of empty cells and the
 * game-over test.
 */
module Grid {
  import opened Tiles

  /** `board[row][col]`. */
  type Board = seq<seq<Option<Tile>>>

  /** A cell position on the board. */
  predicate InBounds(r: int, c: int)
  {
    0 <= r < SIZE && 0 <= c < SIZE
  }

  /** The board has SIZE rows of SIZE cells. */
  predicate Shape(g: Board)
  {
    |g| == SIZE && forall r :: 0 <= r < SIZE ==> |g[r]| == SIZE
  }

  /** A board of empty cells, as `startGame` and `restoreSnapshot` build it. */
  function EmptyBoard(): (g: Board)
    ensures Shape(g)
    ensures forall r, c :: InBounds(r, c) ==> g[r][c].None?
  {
    seq(SIZE, _ => seq(SIZE, _ => None))
  }

  /** Every tile's `row`/`col` are those of the cell holding it. */
  ghost predicate Placement(g: Board)
    requires Shape(g)
  {
    forall r, c :: InBounds(r, c) && g[r][c].Some? ==> g[r][c].val.row == r && g[r][c].val.col == c
  }

  /** No tile (no id) is held by two cells. */
  ghost predicate DistinctIds(g: Board)
    requires Shape(g)
  {
    forall r1, c1, r2, c2 ::
      InBounds(r1, c1) && InBounds(r2, c2) && g[r1][c1].Some? && g[r2][c2].Some? &&
      g[r1][c1].val.id == g[r2][c2].val.id
      ==> r1 == r2 && c1 == c2
  }

  /** Every id on the board was handed out by a counter now at `n`. */
  ghost predicate IdsUpTo(g: Board, n: nat)
    requires Shape(g)
  {
    forall r, c :: InBounds(r, c) && g[r][c].Some? ==> 1 <= g[r][c].val.id <= n
  }

  /** Every tile on the board holds a power of two. */
  ghost predicate Pow2Board(g: Board)
    requires Shape(g)
  {
    forall r, c :: InBounds(r, c) && g[r][c].Some? ==> Pow2(g[r][c].val.value)
  }

  /** The ids of the tiles on the board. */
  function BoardIds(g: Board): set<nat>
    requires Shape(g)
  {
    set r, c | 0 <= r < SIZE && 0 <= c < SIZE && g[r][c].Some? :: g[r][c].val.id
  }

  /** A board whose ids all occur on a board with ids up to `n` has ids up to `n`. */
  lemma IdsUpToWithin(g: Board, h: Board, n: nat)
    requires Shape(g) && Shape(h) && BoardIds(h) <= BoardIds(g) && IdsUpTo(g, n)
    ensures IdsUpTo(h, n)
  {
    forall r, c | InBounds(r, c) && h[r][c].Some? ensures 1 <= h[r][c].val.id <= n {
      assert h[r][c].val.id in BoardIds(h);
    }
  }

  /** Two boards with the same cells are the same board. */
  lemma BoardEq(g: Board, h: Board)
    requires Shape(g) && Shape(h)
    requires forall r, c :: InBounds(r, c) ==> g[r][c] == h[r][c]
    ensures g == h
  {
    forall r | 0 <= r < SIZE ensures g[r] == h[r] {
      assert forall c :: 0 <= c < SIZE ==> g[r][c] == h[r][c];
    }
  }

  /** `setCell`: store `t` in the cell and give it that cell's coordinates. */
  function SetCellOf(g: Board, r: nat, c: nat, t: Option<Tile>): (h: Board)
    requires Shape(g) && InBounds(r, c)
    ensures Shape(h)
    ensures h[r][c] == Placed(t, r, c)
    ensures forall r', c' :: InBounds(r', c') && (r', c') != (r, c) ==> h[r'][c'] == g[r'][c']
  {
    g[r := g[r][c := Placed(t, r, c)]]
  }

  /** After `setCell`, the board holds the ids it held before, except perhaps the overwritten one, and the stored one. */
  lemma SetCellIds(g: Board, r: nat, c: nat, t: Option<Tile>)
    requires Shape(g) && InBounds(r, c)
    ensures BoardIds(SetCellOf(g, r, c, t)) <= BoardIds(g) + (if t.Some? then {t.val.id} else {})
  {
    var h := SetCellOf(g, r, c, t);
    forall x | x in BoardIds(h) ensures x in BoardIds(g) + (if t.Some? then {t.val.id} else {}) {
      var r', c' :| 0 <= r' < SIZE && 0 <= c' < SIZE && h[r'][c'].Some? && h[r'][c'].val.id == x;
      if (r', c') != (r, c) {
        assert g[r'][c'] == h[r'][c'];
      }
    }
  }

  /** Storing a tile keeps the placement invariant. */
  lemma SetCellPlacement(g: Board, r: nat, c: nat, t: Option<Tile>)
    requires Shape(g) && InBounds(r, c) && Placement(g)
    ensures Placement(SetCellOf(g, r, c, t))
  {
  }

  /** The empty cells among the first `c` columns of row `r`, left to right. */
  function EmptyInRow(row: seq<Option<Tile>>, r: nat, c: nat): seq<(nat, nat)>
    requires c <= |row|
  {
    if c == 0 then []
    else EmptyInRow(row, r, c - 1) + (if row[c - 1].None? then [(r, c - 1)] else [])
  }

  /** The empty cells of the first `r` rows, in row-major order. */
  function EmptyInRows(g: Board, r: nat): seq<(nat, nat)>
    requires Shape(g) && r <= SIZE
  {
    if r == 0 then [] else EmptyInRows(g, r - 1) + EmptyInRow(g[r - 1], r - 1, |g[r - 1]|)
  }

  /** `emptyCells`: every empty cell, in row-major order. */
  function EmptyCellsOf(g: Board): seq<(nat, nat)>
    requires Shape(g)
  {
    EmptyInRows(g, |g|)
  }

  /** The row-major rank of a cell. */
  function Rank(cell: (nat, nat)): nat
  {
    cell.0 * SIZE + cell.1
  }

  lemma {:induction false} EmptyInRowFacts(row: seq<Option<Tile>>, r: nat, c: nat)
    requires c <= |row|
    ensures forall x :: x in EmptyInRow(row, r, c) <==> x.0 == r && x.1 < c && row[x.1].None?
    ensures forall i :: 0 <= i < |EmptyInRow(row, r, c)| ==> EmptyInRow(row, r, c)[i].0 == r
    ensures forall i, j :: 0 <= i < j < |EmptyInRow(row, r, c)| ==>
      EmptyInRow(row, r, c)[i].1 < EmptyInRow(row, r, c)[j].1
  {
    if c > 0 {
      EmptyInRowFacts(row, r, c - 1);
    }
  }

  lemma {:induction false} EmptyInRowsFacts(g: Board, r: nat)
    requires Shape(g) && r <= SIZE
    ensures forall x :: x in EmptyInRows(g, r) <==> x.0 < r && InBounds(x.0, x.1) && g[x.0][x.1].None?
    ensures forall i, j :: 0 <= i < j < |EmptyInRows(g, r)| ==>
      Rank(EmptyInRows(g, r)[i]) < Rank(EmptyInRows(g, r)[j])
    ensures forall i :: 0 <= i < |EmptyInRows(g, r)| ==> Rank(EmptyInRows(g, r)[i]) < r * SIZE
  {
    if r > 0 {
      EmptyInRowsFacts(g, r - 1);
      EmptyInRowFacts(g[r - 1], r - 1, |g[r - 1]|);
      var before := EmptyInRows(g, r - 1);
      var row := EmptyInRow(g[r - 1], r - 1, |g[r - 1]|);
      assert EmptyInRows(g, r) == before + row;
      forall i | 0 <= i < |row| ensures (r - 1) * SIZE <= Rank(row[i]) < r * SIZE {
        assert row[i] in row;
      }
    }
  }

  /** A cell is listed by `emptyCells` exactly when it is on the board and empty. */
  lemma EmptyCellsMembership(g: Board, r: nat, c: nat)
    requires Shape(g)
    ensures (r, c) in EmptyCellsOf(g) <==> InBounds(r, c) && g[r][c].None?
  {
    EmptyInRowsFacts(g, |g|);
  }

  lemma {:induction false} EmptyRowLength(row: seq<Option<Tile>>, r: nat, c: nat)
    requires c <= |row| && forall i :: 0 <= i < |row| ==> row[i].None?
    ensures |EmptyInRow(row, r, c)| == c
    decreases c
  {
    if c > 0 {
      EmptyRowLength(row, r, c - 1);
    }
  }

  lemma {:induction false} EmptyRowsLength(g: Board, r: nat)
    requires Shape(g) && r <= SIZE && forall r', c' :: InBounds(r', c') ==> g[r'][c'].None?
    ensures |EmptyInRows(g, r)| == r * SIZE
    decreases r
  {
    if r > 0 {
      EmptyRowsLength(g, r - 1);
      EmptyRowLength(g[r - 1], r - 1, |g[r - 1]|);
    }
  }

  /** A board with every cell empty, as `startGame` begins with: no tile, so every invariant holds with the counter at 0. */
  lemma EmptyBoardFacts(g: Board)
    requires Shape(g) && forall r, c :: InBounds(r, c) ==> g[r][c].None?
    ensures |EmptyCellsOf(g)| == SIZE * SIZE
    ensures Placement(g) && DistinctIds(g) && IdsUpTo(g, 0) && Pow2Board(g)
    ensures BoardIds(g) == {}
  {
    EmptyRowsLength(g, |g|);
  }

  /** A board with an empty cell has a nonempty `emptyCells()`. */
  lemma HasEmptyCell(g: Board, r: nat, c: nat)
    requires Shape(g) && InBounds(r, c) && g[r][c].None?
    ensures |EmptyCellsOf(g)| > 0
  {
    EmptyCellsMembership(g, r, c);
  }

  /** `emptyCells` lists the cells in strictly increasing row-major order, so without repeats. */
  lemma EmptyCellsSorted(g: Board)
    requires Shape(g)
    ensures forall i, j :: 0 <= i < j < |EmptyCellsOf(g)| ==>
      Rank(EmptyCellsOf(g)[i]) < Rank(EmptyCellsOf(g)[j])
  {
    EmptyInRowsFacts(g, |g|);
  }

  /** Filling one empty cell of a row leaves one empty cell fewer in the row. */
  lemma {:induction false} EmptyInRowFill(row: seq<Option<Tile>>, row': seq<Option<Tile>>, r: nat, c: nat, k: nat)
    requires |row| == |row'| && c <= |row| && k < |row|
    requires row[k].None? && row'[k].Some?
    requires forall j :: 0 <= j < |row| && j != k ==> row'[j] == row[j]
    ensures |EmptyInRow(row', r, c)| == |EmptyInRow(row, r, c)| - (if k < c then 1 else 0)
  {
    if c > 0 {
      EmptyInRowFill(row, row', r, c - 1, k);
    }
  }

  /** Rows that are the same have the same empty cells. */
  lemma {:induction false} EmptyInRowSame(row: seq<Option<Tile>>, row': seq<Option<Tile>>, r: nat, c: nat)
    requires |row| == |row'| && c <= |row|
    requires forall j :: 0 <= j < |row| ==> row'[j].None? == row[j].None?
    ensures EmptyInRow(row', r, c) == EmptyInRow(row, r, c)
  {
    if c > 0 {
      EmptyInRowSame(row, row', r, c - 1);
    }
  }

  lemma {:induction false} EmptyInRowsFill(g: Board, g': Board, n: nat, r: nat, c: nat)
    requires Shape(g) && Shape(g') && n <= SIZE && InBounds(r, c)
    requires g[r][c].None? && g'[r][c].Some?
    requires forall r', c' :: InBounds(r', c') && (r', c') != (r, c) ==> g'[r'][c'] == g[r'][c']
    ensures |EmptyInRows(g', n)| == |EmptyInRows(g, n)| - (if r < n then 1 else 0)
  {
    if n > 0 {
      EmptyInRowsFill(g, g', n - 1, r, c);
      if n - 1 == r {
        EmptyInRowFill(g[r], g'[r], r, |g[r]|, c);
      } else {
        EmptyInRowSame(g[n - 1], g'[n - 1], n - 1, |g[n - 1]|);
      }
    }
  }

  /** Putting a tile into an empty cell leaves exactly one empty cell fewer. */
  lemma SetCellFillsEmpty(g: Board, r: nat, c: nat, t: Tile)
    requires Shape(g) && InBounds(r, c) && g[r][c].None?
    ensures |EmptyCellsOf(SetCellOf(g, r, c, Some(t)))| == |EmptyCellsOf(g)| - 1
  {
    EmptyInRowsFill(g, SetCellOf(g, r, c, Some(t)), |g|, r, c);
  }

  /**
   * The test of `checkGameOver` for cell (r, c): the cell holds a tile and
   * its right or lower neighbour is the very same tile object. Beyond the
   * last column or row the neighbour is undefined, which is never a tile.
   */
  predicate SameRefNeighbour(g: Board, r: nat, c: nat)
    requires Shape(g) && InBounds(r, c)
  {
    g[r][c].Some? &&
    ((c + 1 < SIZE && SameRef(g[r][c], g[r][c + 1])) || (r + 1 < SIZE && SameRef(g[r][c], g[r + 1][c])))
  }

  /**
   * `checkGameOver` as written: no empty cell, and no cell whose right or
   * lower neighbour is the same tile reference. The intended rule would
   * compare tile values; comparing references makes the second half true
   * on every board whose cells hold distinct tiles.
   */
  ghost predicate GameOverAsWritten(g: Board)
    requires Shape(g)
  {
    |EmptyCellsOf(g)| == 0 &&
    forall r, c :: InBounds(r, c) ==> !SameRefNeighbour(g, r, c)
  }

  /** The game-over flag is never raised while a cell is empty. */
  lemma NotOverWithEmptyCell(g: Board, r: nat, c: nat)
    requires Shape(g) && InBounds(r, c) && g[r][c].None?
    ensures !GameOverAsWritten(g)
  {
    EmptyCellsMembership(g, r, c);
  }

  /** On a full board whose cells hold distinct tiles, the flag is always raised. */
  lemma FullBoardIsOver(g: Board)
    requires Shape(g) && DistinctIds(g)
    requires forall r, c :: InBounds(r, c) ==> g[r][c].Some?
    ensures GameOverAsWritten(g)
  {
    if |EmptyCellsOf(g)| > 0 {
      var cell := EmptyCellsOf(g)[0];
      EmptyCellsMembership(g, cell.0, cell.1);
    }
  }
}
