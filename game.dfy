/**
 * The game engine: the module-level state of the page (board, tile
 * registry, id counter, score, best score, the snapshot restored by
 * "continue", the move counter and whether the game-over overlay is
 * shown) as the fields of one object, and the page's functions as its
 * methods.
 */
module Engine {
  import opened Tiles
  import opened LineResolver
  import opened Grid
  import opened Moves
  import opened Snapshots
  import opened Spawn
  import opened MoveFacts

  /** The direction names `move` understands. */
  function ParseDir(s: string): (d: Option<Dir>)
    ensures d == Some(Left) <==> s == "left"
    ensures d == Some(Right) <==> s == "right"
    ensures d == Some(Up) <==> s == "up"
    ensures d == Some(Down) <==> s == "down"
  {
    if s == "left" then Some(Left)
    else if s == "right" then Some(Right)
    else if s == "up" then Some(Up)
    else if s == "down" then Some(Down)
    else None
  }

  /** The larger of two scores. */
  function Max(a: nat, b: nat): (m: nat)
    ensures m >= a && m >= b && (m == a || m == b)
  {
    if a >= b then a else b
  }

  /**
   * The invariant of the board and the registry: a SIZE x SIZE board whose
   * tiles sit at their own coordinates and hold powers of two, with
   * distinct ids no greater than the counter, every one of them in the
   * registry.
   */
  ghost predicate Inv(g: Board, tiles: seq<nat>, tileId: nat)
  {
    Shape(g) && Placement(g) && DistinctIds(g) && IdsUpTo(g, tileId) && Pow2Board(g) &&
    forall x :: x in BoardIds(g) ==> x in tiles
  }

  /** The board `startGame` clears satisfies the invariant with an empty registry and the counter at 0. */
  lemma EmptyInv(g: Board)
    requires Shape(g) && forall r, c :: InBounds(r, c) ==> g[r][c].None?
    ensures Inv(g, [], 0) && |EmptyCellsOf(g)| == SIZE * SIZE
  {
    EmptyBoardFacts(g);
  }

  /**
   * A spawn keeps the invariant: on a full board it changes nothing; on a
   * board with an empty cell it fills one cell with the next id, which is
   * registered.
   */
  lemma SpawnInv(g: Board, tiles: seq<nat>, tileId: nat, d: Draw, moveCount: nat)
    requires Inv(g, tiles, tileId) && DrawOk(d)
    ensures |EmptyCellsOf(g)| == 0 ==> AddedBoard(g, d, moveCount, tileId + 1) == g
    ensures |EmptyCellsOf(g)| > 0 ==>
      Inv(AddedBoard(g, d, moveCount, tileId + 1), tiles + [tileId + 1], tileId + 1) &&
      |EmptyCellsOf(AddedBoard(g, d, moveCount, tileId + 1))| == |EmptyCellsOf(g)| - 1
  {
    AddedBoardFacts(g, d, moveCount, tileId);
    SpawnKeepsPow2(g, d, moveCount, tileId + 1);
  }

  /** A move keeps the invariant with the same registry and counter. */
  lemma SlideInv(g: Board, tiles: seq<nat>, tileId: nat, d: Dir)
    requires Inv(g, tiles, tileId)
    ensures Inv(SlidGrid(g, d), tiles, tileId)
  {
    MoveKeepsIds(g, d);
    IdsUpToWithin(g, SlidGrid(g, d), tileId);
    SlideKeepsPow2(g, d);
  }

  /** A snapshot the game keeps restores to a board and registry satisfying the invariant. */
  lemma RestoreInv(s: Snapshot)
    requires SnapshotOk(s)
    ensures Inv(RestoredGrid(s.board), RegistryOf(s.board), s.tileId)
  {
    RegistryCovers(s.board);
  }

  class Game {
    /**
     * The page's start: the stored best score, nothing else, then
     * `startGame` with the draws of its two spawns.
     */
    constructor (storedBest: nat, d1: Draw, d2: Draw)
      requires DrawOk(d1) && DrawOk(d2)
      ensures Valid()
      ensures score == 0 && best == storedBest && moveCount == 0 && safeSnapshot.None? && !over
      ensures tileId == 2 && tiles == [1, 2] && |EmptyCellsOf(board)| == SIZE * SIZE - 2
      ensures board == AddedBoard(AddedBoard(EmptyBoard(), d1, 0, 1), d2, 0, 2)
    {
      board := EmptyBoard();
      tiles := [];
      tileId := 0;
      score := 0;
      best := storedBest;
      safeSnapshot := None;
      moveCount := 0;
      over := false;
      new;
      ghost var cleared := StartGame(d1, d2);
      BoardEq(cleared, EmptyBoard());
    }

    /** `board[row][col]`. */
    var board: Board
    /** The ids of the tile objects kept for rendering, in creation order. */
    var tiles: seq<nat>
    /** The last id handed out. */
    var tileId: nat
    var score: nat
    var best: nat
    /** The board, score and counter before the last move that moved. */
    var safeSnapshot: Option<Snapshot>
    var moveCount: nat
    /** The game-over overlay is shown. */
    var over: bool

    /**
     * The invariant the game keeps: the board and the registry satisfy
     * `Inv`, the score never exceeds the best score, and a snapshot, when
     * there is one, restores to a board of distinct tiles with a score no
     * higher than the best.
     */
    ghost predicate Valid()
      reads this
    {
      Inv(board, tiles, tileId) && score <= best &&
      (safeSnapshot.Some? ==> SnapshotOk(safeSnapshot.val) && safeSnapshot.val.score <= best)
    }

    /** `setCell`. */
    method SetCell(r: nat, c: nat, t: Option<Tile>)
      requires Shape(board) && InBounds(r, c)
      modifies this`board
      ensures board == SetCellOf(old(board), r, c, t)
    {
      board := board[r := board[r][c := Placed(t, r, c)]];
    }

    /** `createTile`: a new tile with the next id, added to the registry. */
    method CreateTile(r: nat, c: nat, value: nat) returns (t: Tile)
      modifies this`tileId, this`tiles
      ensures tileId == old(tileId) + 1
      ensures t == NewTile(tileId, r, c, value)
      ensures tiles == old(tiles) + [tileId]
    {
      tileId := tileId + 1;
      t := NewTile(tileId, r, c, value);
      tiles := tiles + [t.id];
    }

    /** `clearTiles`: empty the registry and restart the id counter. */
    method ClearTiles()
      modifies this`tiles, this`tileId
      ensures tiles == [] && tileId == 0
    {
      tiles := [];
      tileId := 0;
    }

    /** `updateScore`: add `delta` and raise the best score to the new score if it is higher. */
    method UpdateScore(delta: nat)
      modifies this`score, this`best
      ensures score == old(score) + delta
      ensures best == Max(old(best), score)
    {
      score := score + delta;
      if score > best {
        best := score;
      }
    }

    /** `emptyCells`: the empty cells in row-major order. */
    method EmptyCells() returns (cells: seq<(nat, nat)>)
      requires Shape(board)
      ensures cells == EmptyCellsOf(board)
    {
      cells := [];
      var r := 0;
      while r < SIZE
        invariant 0 <= r <= SIZE
        invariant cells == EmptyInRows(board, r)
      {
        var c := 0;
        while c < SIZE
          invariant 0 <= c <= SIZE
          invariant cells == EmptyInRows(board, r) + EmptyInRow(board[r], r, c)
        {
          if board[r][c].None? {
            cells := cells + [(r, c)];
          }
          c := c + 1;
        }
        r := r + 1;
      }
    }

    /** The `board = …` of `startGame`: SIZE rows of SIZE empty cells. */
    method ClearBoard()
      modifies this`board
      ensures Shape(board) && forall r, c :: InBounds(r, c) ==> board[r][c].None?
    {
      board := EmptyBoard();
    }

    /**
     * `startGame`: an empty board, an empty registry and a fresh counter,
     * score and move counter at 0, the overlay hidden, no snapshot, then
     * two spawns with the draws `d1` and `d2`. The best score stays.
     */
    method StartGame(d1: Draw, d2: Draw) returns (ghost cleared: Board)
      requires DrawOk(d1) && DrawOk(d2)
      modifies this
      ensures Valid()
      ensures score == 0 && moveCount == 0 && safeSnapshot.None? && !over && best == old(best)
      ensures Shape(cleared) && (forall r, c :: InBounds(r, c) ==> cleared[r][c].None?)
      ensures board == AddedBoard(AddedBoard(cleared, d1, 0, 1), d2, 0, 2)
      ensures tileId == 2 && tiles == [1, 2]
      ensures |EmptyCellsOf(board)| == SIZE * SIZE - 2
    {
      Reset();
      cleared := board;
      AddRandomTile(d1);
      AddRandomTile(d2);
    }

    /** The part of `startGame` before the two spawns: everything cleared, the best score kept. */
    method Reset()
      modifies this
      ensures Inv(board, tiles, tileId) && tiles == [] && tileId == 0
      ensures Shape(board) && (forall r, c :: InBounds(r, c) ==> board[r][c].None?) && |EmptyCellsOf(board)| == SIZE * SIZE
      ensures score == 0 && moveCount == 0 && safeSnapshot.None? && !over && best == old(best)
    {
      ClearBoard();
      ClearTiles();
      score := 0;
      moveCount := 0;
      UpdateScore(0);
      over := false;
      safeSnapshot := None;
      EmptyInv(board);
    }

    /** `addRandomTile`: a new tile in the drawn empty cell, if there is one. */
    method AddRandomTile(draw: Draw)
      requires Inv(board, tiles, tileId) && DrawOk(draw)
      modifies this`board, this`tileId, this`tiles
      ensures Inv(board, tiles, tileId)
      ensures board == AddedBoard(old(board), draw, moveCount, old(tileId) + 1)
      ensures |EmptyCellsOf(old(board))| == 0 ==> board == old(board) && tileId == old(tileId) && tiles == old(tiles)
      ensures |EmptyCellsOf(old(board))| > 0 ==>
        |EmptyCellsOf(board)| == |EmptyCellsOf(old(board))| - 1 && tileId == old(tileId) + 1 && tiles == old(tiles) + [tileId]
    {
      SpawnInv(board, tiles, tileId, draw, moveCount);
      var cells := EmptyCells();
      if |cells| == 0 {
        return;
      }
      var cell := cells[PickIndex(draw.roll, |cells|)];
      EmptyCellsMembership(board, cell.0, cell.1);
      var value := GetSpawnValue(moveCount, draw.percent);
      var t := CreateTile(cell.0, cell.1, value);
      SetCell(cell.0, cell.1, Some(t));
    }

    /**
     * `move`: nothing while the overlay is shown, for an unknown direction,
     * or when nothing moved, which is when the slid board equals the old one
     * (`MovedIffChanged`). Otherwise the move counter goes up, the
     * snapshot taken before the move is kept, the gain is added to the
     * score, which rises exactly when some tile was absorbed, one tile is
     * spawned with the draws `draw` and the game-over test runs.
     */
    method Move(direction: string, draw: Draw)
      requires Valid() && DrawOk(draw)
      modifies this
      ensures Valid()
      ensures old(over) || ParseDir(direction).None? || SlidGrid(old(board), ParseDir(direction).val) == old(board) ==> unchanged(this)
      ensures !old(over) && ParseDir(direction).Some? && SlidGrid(old(board), ParseDir(direction).val) != old(board) ==>
        moveCount == old(moveCount) + 1 &&
        safeSnapshot == Some(Capture(old(board), old(score), old(tileId))) &&
        score == old(score) + GainedTotal(old(board), ParseDir(direction).val) &&
        (score > old(score) <==> RemovedTiles(old(board), ParseDir(direction).val) != []) &&
        best == Max(old(best), score) &&
        board == AddedBoard(SlidGrid(old(board), ParseDir(direction).val), draw, moveCount, tileId) &&
        tileId == old(tileId) + 1 && tiles == old(tiles) + [tileId] &&
        over == GameOverAsWritten(board)
    {
      if over {
        return;
      }
      var snapshotBeforeMove := Capture(board, score, tileId);
      var dir := ParseDir(direction);
      if dir.None? {
        return;
      }
      SlideKeepsPow2(board, dir.val);
      MoveIn(dir.val, snapshotBeforeMove, draw);
    }

    /**
     * `move` once the direction is known and the overlay is hidden: slide,
     * stop if no cell changed, otherwise commit the move with the snapshot
     * taken before it.
     */
    method MoveIn(d: Dir, snapshotBeforeMove: Snapshot, draw: Draw)
      requires Valid() && !over && DrawOk(draw)
      requires snapshotBeforeMove == Capture(board, score, tileId)
      modifies this
      ensures Valid()
      ensures SlidGrid(old(board), d) == old(board) ==> unchanged(this)
      ensures SlidGrid(old(board), d) != old(board) ==>
        moveCount == old(moveCount) + 1 && safeSnapshot == Some(snapshotBeforeMove) &&
        score == old(score) + GainedTotal(old(board), d) && best == Max(old(best), score) &&
        board == AddedBoard(SlidGrid(old(board), d), draw, moveCount, tileId) &&
        tileId == old(tileId) + 1 && tiles == old(tiles) + [tileId] &&
        over == GameOverAsWritten(board)
    {
      ghost var g := board;
      var moved, gainedTotal, removedTiles := Slide(d);
      if !moved {
        return;
      }
      Advance(g, d, snapshotBeforeMove, gainedTotal, draw);
    }

    /**
     * The rest of a move that changed the board `g` into the current board:
     * the slid board keeps the invariants and has room for the spawn, and
     * the snapshot of `g` is one `restoreSnapshot` can use.
     */
    method Advance(ghost g: Board, d: Dir, snapshotBeforeMove: Snapshot, gainedTotal: nat, draw: Draw)
      requires Inv(g, tiles, tileId) && board == SlidGrid(g, d) && SlidGrid(g, d) != g
      requires score <= best && !over && DrawOk(draw) && snapshotBeforeMove == Capture(g, score, tileId)
      modifies this
      ensures Valid()
      ensures moveCount == old(moveCount) + 1 && safeSnapshot == Some(snapshotBeforeMove)
      ensures score == old(score) + gainedTotal && best == Max(old(best), score)
      ensures board == AddedBoard(old(board), draw, moveCount, tileId)
      ensures tileId == old(tileId) + 1 && tiles == old(tiles) + [tileId]
      ensures over == GameOverAsWritten(board)
    {
      SlideInv(g, tiles, tileId, d);
      MovedLeavesRoom(g, d);
      CaptureOk(g, score, tileId);
      Commit(snapshotBeforeMove, gainedTotal, draw);
    }

    /**
     * The part of `move` after a move that moved: count the move, keep the
     * snapshot taken before it, add the gain, spawn, and test for game over.
     */
    method Commit(snapshotBeforeMove: Snapshot, gainedTotal: nat, draw: Draw)
      requires Inv(board, tiles, tileId) && |EmptyCellsOf(board)| > 0 && score <= best && !over && DrawOk(draw)
      requires SnapshotOk(snapshotBeforeMove) && snapshotBeforeMove.score == score
      modifies this
      ensures Valid()
      ensures moveCount == old(moveCount) + 1 && safeSnapshot == Some(snapshotBeforeMove)
      ensures score == old(score) + gainedTotal && best == Max(old(best), score)
      ensures board == AddedBoard(old(board), draw, moveCount, tileId)
      ensures tileId == old(tileId) + 1 && tiles == old(tiles) + [tileId]
      ensures over == GameOverAsWritten(board)
    {
      moveCount := moveCount + 1;
      safeSnapshot := Some(snapshotBeforeMove);
      UpdateScore(gainedTotal);
      AddRandomTile(draw);
      CheckGameOver();
    }

    /**
     * `checkGameOver`: show the overlay when no cell is empty and no cell's
     * right or lower neighbour is the same tile reference; otherwise leave
     * the overlay as it is.
     */
    method CheckGameOver()
      requires Shape(board)
      modifies this`over
      ensures over == (old(over) || GameOverAsWritten(board))
    {
      var cells := EmptyCells();
      if |cells| > 0 {
        return;
      }
      var r := 0;
      while r < SIZE
        invariant 0 <= r <= SIZE
        invariant forall r', c' :: 0 <= r' < r && 0 <= c' < SIZE ==> !SameRefNeighbour(board, r', c')
      {
        var c := 0;
        while c < SIZE
          invariant 0 <= c <= SIZE
          invariant forall r', c' :: 0 <= r' < r && 0 <= c' < SIZE ==> !SameRefNeighbour(board, r', c')
          invariant forall c' :: 0 <= c' < c ==> !SameRefNeighbour(board, r, c')
        {
          var current := board[r][c];
          var right := if c + 1 < SIZE then board[r][c + 1] else None;
          var down := if r + 1 < SIZE then board[r + 1][c] else None;
          if current.Some? && (SameRef(current, right) || SameRef(current, down)) {
            assert SameRefNeighbour(board, r, c);
            return;
          }
          c := c + 1;
        }
        r := r + 1;
      }
      over := true;
    }

    /**
     * `restoreSnapshot`: nothing without a snapshot; otherwise an empty
     * board and registry, the snapshot's counter and score, then a fresh
     * tile for every copy, registered and stored with `setCell`, row by
     * row. The move counter and the best score are not part of a snapshot.
     */
    method RestoreSnapshot(snapshot: Option<Snapshot>)
      requires snapshot.Some? ==> DataShape(snapshot.val.board)
      modifies this`board, this`tiles, this`tileId, this`score
      ensures snapshot.None? ==> board == old(board) && tiles == old(tiles) && tileId == old(tileId) && score == old(score)
      ensures snapshot.Some? ==>
        board == RestoredGrid(snapshot.val.board) && tiles == RegistryOf(snapshot.val.board) &&
        tileId == snapshot.val.tileId && score == snapshot.val.score
    {
      if snapshot.None? {
        return;
      }
      var b := snapshot.val.board;
      ClearBoard();
      tiles := [];
      tileId := snapshot.val.tileId;
      score := snapshot.val.score;
      PartRestoredStart(b, board);
      var r := 0;
      while r < SIZE
        invariant 0 <= r <= SIZE
        invariant board == PartRestored(b, r * SIZE)
        invariant tiles == RestoredIds(b, r)
        invariant tileId == snapshot.val.tileId && score == snapshot.val.score
      {
        RestoreRow(b, r);
        r := r + 1;
      }
      PartRestoredEnd(b);
    }

    /** Row `r` of `restoreSnapshot`: each copy, left to right, becomes a new tile, registered and stored. */
    method RestoreRow(b: DataBoard, r: nat)
      requires DataShape(b) && r < SIZE && board == PartRestored(b, r * SIZE)
      modifies this`board, this`tiles
      ensures board == PartRestored(b, (r + 1) * SIZE)
      ensures tiles == old(tiles) + RowIds(b[r], SIZE)
    {
      var c := 0;
      while c < SIZE
        invariant 0 <= c <= SIZE
        invariant board == PartRestored(b, r * SIZE + c)
        invariant tiles == old(tiles) + RowIds(b[r], c)
      {
        RestoreCell(b, r, c);
        c := c + 1;
      }
      assert r * SIZE + c == (r + 1) * SIZE;
    }

    /** The body of the inner loop of `restoreSnapshot` for cell (r, c): a copy becomes a tile in the registry and on the board. */
    method RestoreCell(b: DataBoard, r: nat, c: nat)
      requires DataShape(b) && InBounds(r, c) && board == PartRestored(b, r * SIZE + c)
      modifies this`board, this`tiles
      ensures board == PartRestored(b, r * SIZE + (c + 1))
      ensures tiles == old(tiles) + (if b[r][c].Some? then [b[r][c].val.id] else [])
    {
      PartRestoredStep(b, r, c);
      var tileData := b[r][c];
      if tileData.Some? {
        var tile := FromData(tileData);
        tiles := tiles + [tile.val.id];
        SetCell(r, c, tile);
      }
    }

    /**
     * The "continue" button: without a snapshot nothing happens; otherwise
     * the overlay is hidden and the snapshot restored. The snapshot itself
     * is kept, so a later "continue" restores it again.
     */
    method Continue()
      requires Valid()
      modifies this
      ensures Valid()
      ensures safeSnapshot == old(safeSnapshot) && best == old(best) && moveCount == old(moveCount)
      ensures old(safeSnapshot).None? ==>
        over == old(over) && board == old(board) && tiles == old(tiles) && tileId == old(tileId) && score == old(score)
      ensures old(safeSnapshot).Some? ==>
        !over && board == RestoredGrid(old(safeSnapshot).val.board) && tiles == RegistryOf(old(safeSnapshot).val.board) &&
        tileId == old(safeSnapshot).val.tileId && score == old(safeSnapshot).val.score
    {
      if safeSnapshot.None? {
        return;
      }
      over := false;
      RestoreInv(safeSnapshot.val);
      RestoreSnapshot(safeSnapshot);
    }

    /**
     * `moveLeft`, `moveRight`, `moveUp` and `moveDown`: every line of the
     * direction goes through `processLine` and is written back; `moved`
     * records whether any cell now holds a different reference, which is
     * whether the board changed (`MovedIff`, `MovedIffChanged`), and the
     * absorbed tiles are moved onto the cell they merged into.
     */
    method Slide(d: Dir) returns (moved: bool, gainedTotal: nat, removedTiles: seq<Tile>)
      requires Shape(board) && Placement(board)
      modifies this`board
      ensures board == SlidGrid(old(board), d)
      ensures moved <==> board != old(board)
      ensures gainedTotal == GainedTotal(old(board), d)
      ensures removedTiles == RemovedTiles(old(board), d)
    {
      ghost var g := board;
      ghost var o := Outs(g, d);
      moved, gainedTotal, removedTiles := false, 0, [];
      PartlyStart(g, o, d);
      var k := 0;
      while k < SIZE
        invariant 0 <= k <= SIZE
        invariant board == Partly(g, o, d, k, 0)
        invariant moved == Any(Changes(g, o, d), k)
        invariant gainedTotal == Sum(Gains(o), k)
        invariant removedTiles == Concat(Removals(o, d), k)
      {
        moved, gainedTotal, removedTiles := SlideLine(g, o, d, k, moved, gainedTotal, removedTiles);
        k := k + 1;
      }
      PartlyEnd(g, o, d);
      Totals(g, d);
      MovedIff(g, d);
      MovedIffChanged(g, d);
    }

    /**
     * The body of a move's loop for line `k`: read the line, resolve it,
     * write it back, add its gain and its absorbed tiles (relocated) to the
     * running totals.
     */
    method SlideLine(ghost g: Board, ghost o: seq<Outcome>, d: Dir, k: nat, moved0: bool, gained0: nat, removed0: seq<Tile>)
      returns (moved: bool, gainedTotal: nat, removedTiles: seq<Tile>)
      requires Shape(g) && o == Outs(g, d) && k < SIZE && board == Partly(g, o, d, k, 0)
      requires moved0 == Any(Changes(g, o, d), k) && gained0 == Sum(Gains(o), k) && removed0 == Concat(Removals(o, d), k)
      modifies this`board
      ensures board == Partly(g, o, d, k + 1, 0)
      ensures moved == Any(Changes(g, o, d), k + 1)
      ensures gainedTotal == Sum(Gains(o), k + 1)
      ensures removedTiles == Concat(Removals(o, d), k + 1)
    {
      PartlyInLine(g, o, d, k);
      var original := ReadLine(d, k);
      var result, gained, removed := ProcessLine(original);
      gainedTotal := gained0 + gained;
      var changed := WriteLine(g, o, d, k, original, result);
      moved := moved0 || changed;
      var relocated := Relocated(removed, d, k);
      removedTiles := removed0 + relocated;
    }

    /**
     * Writing the resolved line back with `setCell`, slot by slot, noting
     * whether any slot now holds a different reference.
     */
    method WriteLine(ghost g: Board, ghost o: seq<Outcome>, d: Dir, k: nat, original: Line, result: Line)
      returns (changed: bool)
      requires Shape(g) && Sized(o) && k < SIZE && board == Partly(g, o, d, k, 0)
      requires original == InLine(g, d, k) && result == o[k].result
      modifies this`board
      ensures board == Partly(g, o, d, k + 1, 0)
      ensures changed == LineChanged(original, result)
    {
      changed := false;
      var j := 0;
      while j < SIZE
        invariant 0 <= j <= SIZE
        invariant board == Partly(g, o, d, k, j)
        invariant changed == ChangedBefore(original, result, j)
      {
        if IdOf(original[j]) != IdOf(result[j]) {
          changed := true;
        }
        SetCell(CellRow(d, k, j), CellCol(d, k, j), result[j]);
        PartlyStep(g, o, d, k, j);
        j := j + 1;
      }
      PartlyNextLine(g, o, d, k);
    }

    /** Line `k` of the board as direction `d` reads it. */
    method ReadLine(d: Dir, k: nat) returns (line: Line)
      requires Shape(board) && k < SIZE
      ensures line == InLine(board, d, k)
    {
      line := [];
      var j := 0;
      while j < SIZE
        invariant 0 <= j <= SIZE
        invariant line == InLine(board, d, k)[..j]
      {
        line := line + [board[CellRow(d, k, j)][CellCol(d, k, j)]];
        j := j + 1;
      }
    }
  }

  /** The `removed.forEach` step of a move: each absorbed tile takes its target cell's coordinates. */
  method Relocated(removed: seq<Tile>, d: Dir, k: nat) returns (us: seq<Tile>)
    ensures us == RelocateAll(removed, d, k)
  {
    us := removed;
    var i := 0;
    while i < |us|
      invariant 0 <= i <= |us| == |removed|
      invariant forall q :: 0 <= q < |removed| ==> us[q] == if q < i then Relocate(removed[q], d, k) else removed[q]
    {
      us := us[i := Relocate(us[i], d, k)];
      i := i + 1;
    }
  }
}
