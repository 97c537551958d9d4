/**
 * Snapshots (`makeSnapshot` / `restoreSnapshot`): a copy of the board that
 * keeps each tile's id, coordinates and value but none of its transient
 * flags, together with the score and the id counter.
 */
module Snapshots {
  import opened Tiles
  import opened Grid

  /** The copy of one tile: `{ id, row, col, value }`. */
  datatype TileData = TileData(id: nat, row: int, col: int, value: nat)

  type DataBoard = seq<seq<Option<TileData>>>

  datatype Snapshot = Snapshot(board: DataBoard, score: nat, tileId: nat)

  /** The copy of a cell's occupant. */
  function DataOf(t: Option<Tile>): (d: Option<TileData>)
    ensures d.Some? == t.Some?
    ensures t.Some? ==> d.val == TileData(t.val.id, t.val.row, t.val.col, t.val.value)
  {
    if t.Some? then Some(TileData(t.val.id, t.val.row, t.val.col, t.val.value)) else None
  }

  /** The snapshot board has SIZE rows of SIZE cells. */
  predicate DataShape(b: DataBoard)
  {
    |b| == SIZE && forall r :: 0 <= r < SIZE ==> |b[r]| == SIZE
  }

  /** `makeSnapshot`, on the board, score and id counter the game passes it from its own fields. */
  function Capture(g: Board, score: nat, tileId: nat): (s: Snapshot)
    requires Shape(g)
    ensures DataShape(s.board) && s.score == score && s.tileId == tileId
    ensures forall r, c :: InBounds(r, c) ==> s.board[r][c] == DataOf(g[r][c])
  {
    Snapshot(seq(SIZE, r requires 0 <= r < SIZE => seq(SIZE, c requires 0 <= c < SIZE => DataOf(g[r][c]))), score, tileId)
  }

  /** `{ ...tileData }`: a fresh tile object with the copied fields and no flags set. */
  function FromData(d: Option<TileData>): (t: Option<Tile>)
    ensures t.Some? == d.Some?
    ensures d.Some? ==>
      (t.val.id == d.val.id && t.val.row == d.val.row && t.val.col == d.val.col && t.val.value == d.val.value &&
       !t.val.isNew && !t.val.merged && !t.val.removing && t.val.mergeTo.None?)
  {
    if d.Some? then Some(Tile(d.val.id, d.val.row, d.val.col, d.val.value, false, false, false, None)) else None
  }

  /** The board `restoreSnapshot` rebuilds: each copy becomes a new tile stored with `setCell`. */
  function RestoredGrid(b: DataBoard): (g: Board)
    requires DataShape(b)
    ensures Shape(g) && Placement(g)
    ensures forall r, c :: InBounds(r, c) ==> g[r][c] == Placed(FromData(b[r][c]), r, c)
  {
    seq(SIZE, r requires 0 <= r < SIZE => seq(SIZE, c requires 0 <= c < SIZE => Placed(FromData(b[r][c]), r, c)))
  }

  /** A tile with its transient flags cleared. */
  function Unflagged(t: Option<Tile>): Option<Tile>
  {
    if t.Some? then Some(t.val.(isNew := false, merged := false, removing := false, mergeTo := None)) else None
  }

  /** The board with every tile's transient flags cleared. */
  function ClearFlags(g: Board): (h: Board)
    requires Shape(g)
    ensures Shape(h)
    ensures forall r, c :: InBounds(r, c) ==> h[r][c] == Unflagged(g[r][c])
  {
    seq(SIZE, r requires 0 <= r < SIZE => seq(SIZE, c requires 0 <= c < SIZE => Unflagged(g[r][c])))
  }

  /**
   * Round trip: restoring a snapshot of a board whose tiles sit at their
   * own coordinates gives back the same tiles (ids, values, positions),
   * each with its flags cleared.
   */
  lemma RestoreCapture(g: Board, score: nat, tileId: nat)
    requires Shape(g) && Placement(g)
    ensures RestoredGrid(Capture(g, score, tileId).board) == ClearFlags(g)
  {
    var h := RestoredGrid(Capture(g, score, tileId).board);
    var u := ClearFlags(g);
    forall r | 0 <= r < SIZE ensures h[r] == u[r] {
      assert forall c :: 0 <= c < SIZE ==> h[r][c] == u[r][c];
    }
  }

  /**
   * A snapshot the game can take: its board restores to a board of
   * distinct tiles with ids up to its counter, each holding a power of two.
   */
  ghost predicate SnapshotOk(s: Snapshot)
  {
    DataShape(s.board) && DistinctIds(RestoredGrid(s.board)) && IdsUpTo(RestoredGrid(s.board), s.tileId) &&
    Pow2Board(RestoredGrid(s.board))
  }

  /** Every snapshot of a board the game keeps is one it can restore. */
  lemma CaptureOk(g: Board, score: nat, tileId: nat)
    requires Shape(g) && Placement(g) && DistinctIds(g) && IdsUpTo(g, tileId) && Pow2Board(g)
    ensures SnapshotOk(Capture(g, score, tileId))
  {
    RestoreCapture(g, score, tileId);
  }

  /** The ids `restoreSnapshot` pushes to `tiles`: those of the first `c` cells of row `r`, left to right. */
  function RowIds(row: seq<Option<TileData>>, c: int): seq<nat>
    requires 0 <= c <= |row|
    decreases c
  {
    if c == 0 then [] else RowIds(row, c - 1) + (if row[c - 1].Some? then [row[c - 1].val.id] else [])
  }

  /** The ids `restoreSnapshot` pushes to `tiles` for the first `r` rows, in row-major order. */
  function RestoredIds(b: DataBoard, r: int): seq<nat>
    requires DataShape(b) && 0 <= r <= SIZE
    decreases r
  {
    if r == 0 then [] else RestoredIds(b, r - 1) + RowIds(b[r - 1], |b[r - 1]|)
  }

  /** The registry `restoreSnapshot` rebuilds: the ids of the whole board, in row-major order. */
  function RegistryOf(b: DataBoard): seq<nat>
    requires DataShape(b)
  {
    RestoredIds(b, |b|)
  }

  /** The board part way through `restoreSnapshot`: the first `n` cells in row-major order rebuilt, the rest empty. */
  function PartRestored(b: DataBoard, n: int): (g: Board)
    requires DataShape(b)
    ensures Shape(g)
    ensures forall r, c :: InBounds(r, c) ==> g[r][c] == if r * SIZE + c < n then Placed(FromData(b[r][c]), r, c) else None
  {
    seq(SIZE, r requires 0 <= r < SIZE =>
      seq(SIZE, c requires 0 <= c < SIZE => if r * SIZE + c < n then Placed(FromData(b[r][c]), r, c) else None))
  }

  lemma PartRestoredStart(b: DataBoard, g: Board)
    requires DataShape(b) && Shape(g) && forall r, c :: InBounds(r, c) ==> g[r][c].None?
    ensures PartRestored(b, 0) == g
  {
    BoardEq(PartRestored(b, 0), g);
  }

  lemma PartRestoredEnd(b: DataBoard)
    requires DataShape(b)
    ensures PartRestored(b, SIZE * SIZE) == RestoredGrid(b)
  {
    BoardEq(PartRestored(b, SIZE * SIZE), RestoredGrid(b));
  }

  /** Rebuilding cell (r, c) is one step of the restore: `setCell` for a copy, nothing for an empty cell. */
  lemma PartRestoredStep(b: DataBoard, r: int, c: int)
    requires DataShape(b) && InBounds(r, c)
    ensures b[r][c].None? ==> PartRestored(b, r * SIZE + c + 1) == PartRestored(b, r * SIZE + c)
    ensures b[r][c].Some? ==>
      PartRestored(b, r * SIZE + c + 1) == SetCellOf(PartRestored(b, r * SIZE + c), r, c, FromData(b[r][c]))
  {
    var n := r * SIZE + c;
    forall r', c' | InBounds(r', c') ensures (r' * SIZE + c' < n + 1) == (r' * SIZE + c' < n || (r', c') == (r, c)) {
      RankOrder(r, c, r', c');
    }
    if b[r][c].None? {
      BoardEq(PartRestored(b, n + 1), PartRestored(b, n));
    } else {
      BoardEq(PartRestored(b, n + 1), SetCellOf(PartRestored(b, n), r, c, FromData(b[r][c])));
    }
  }

  /** Distinct cells have distinct row-major ranks. */
  lemma RankOrder(r: int, c: int, r': int, c': int)
    requires InBounds(r, c) && InBounds(r', c')
    ensures r' * SIZE + c' == r * SIZE + c <==> (r', c') == (r, c)
  {
    if r' < r {
      assert r' * SIZE + c' < (r' + 1) * SIZE <= r * SIZE;
    } else if r < r' {
      assert r * SIZE + c < (r + 1) * SIZE <= r' * SIZE;
    }
  }

  /** The ids pushed for the first `c` cells of a row include the copy in cell `i` among them. */
  lemma {:induction false} RowIdsHas(row: seq<Option<TileData>>, c: int, i: int)
    requires 0 <= i < c <= |row| && row[i].Some?
    ensures row[i].val.id in RowIds(row, c)
    decreases c
  {
    if i < c - 1 {
      RowIdsHas(row, c - 1, i);
    }
  }

  /** The ids pushed for the first `r` rows include the copy in cell (r', c) of those rows. */
  lemma {:induction false} RestoredIdsHas(b: DataBoard, r: int, r': int, c: int)
    requires DataShape(b) && 0 <= r' < r <= SIZE && 0 <= c < SIZE && b[r'][c].Some?
    ensures b[r'][c].val.id in RestoredIds(b, r)
    decreases r
  {
    if r' < r - 1 {
      RestoredIdsHas(b, r - 1, r', c);
    } else {
      RowIdsHas(b[r'], |b[r']|, c);
    }
  }

  /** Every tile of the restored board is in the restored registry. */
  lemma RegistryCovers(b: DataBoard)
    requires DataShape(b)
    ensures forall x :: x in BoardIds(RestoredGrid(b)) ==> x in RegistryOf(b)
  {
    var g := RestoredGrid(b);
    forall x | x in BoardIds(g) ensures x in RegistryOf(b) {
      var r, c :| 0 <= r < SIZE && 0 <= c < SIZE && g[r][c].Some? && g[r][c].val.id == x;
      RestoredIdsHas(b, |b|, r, c);
    }
  }
}
