/**
 * What a move does to the board as a whole: when it reports `moved`, what
 * happens when it does not, and how it preserves the board invariants,
 * the tiles and their values. Each fact is first stated for any outcomes
 * of the lines that have the property of `processLine` it needs, then for
 * the outcomes `processLine` actually gives.
 */
module MoveFacts {
  import opened Tiles
  import opened LineResolver
  import opened LineFacts
  import opened Grid
  import opened Moves

  /** `Any` is the existential it stands for. */
  lemma {:induction false} AnyIff(s: seq<bool>, k: int)
    requires 0 <= k <= |s|
    ensures Any(s, k) <==> exists i :: 0 <= i < k && s[i]
    decreases k
  {
    if k > 0 {
      AnyIff(s, k - 1);
    }
  }

  /** Some slot among the first `j` holds a different reference: the recursive test and its meaning. */
  lemma {:induction false} ChangedBeforeIff(a: Line, b: Line, j: int)
    requires 0 <= j <= |a| && j <= |b|
    ensures ChangedBefore(a, b, j) <==> exists i :: 0 <= i < j && Differs(a, b, i)
    decreases j
  {
    if j > 0 {
      ChangedBeforeIff(a, b, j - 1);
    }
  }

  /** A cell of the written board differs from the old one exactly when its slot differs in its line. */
  lemma CellChangedAt(g: Board, o: seq<Outcome>, d: Dir, r: int, c: int)
    requires Shape(g) && Sized(o) && InBounds(r, c)
    ensures CellChanged(g, Slid(o, d), r, c) <==>
      Differs(InLine(g, d, LineOf(d, r, c)), o[LineOf(d, r, c)].result, PosOf(d, r, c))
  {
  }

  /** A line that changes has a cell of the written board that changes. */
  lemma ChangedLineCell(g: Board, o: seq<Outcome>, d: Dir, k: int) returns (r: int, c: int)
    requires Shape(g) && Sized(o) && 0 <= k < SIZE && Changes(g, o, d)[k]
    ensures InBounds(r, c) && CellChanged(g, Slid(o, d), r, c)
  {
    ChangedBeforeIff(InLine(g, d, k), o[k].result, SIZE);
    var j :| 0 <= j < SIZE && Differs(InLine(g, d, k), o[k].result, j);
    r, c := CellRow(d, k, j), CellCol(d, k, j);
    CellOfSlot(d, k, j);
    CellChangedAt(g, o, d, r, c);
  }

  /** A cell of the written board that changes lies in a line that changes. */
  lemma ChangedCellLine(g: Board, o: seq<Outcome>, d: Dir, r: int, c: int)
    requires Shape(g) && Sized(o) && InBounds(r, c) && CellChanged(g, Slid(o, d), r, c)
    ensures Changes(g, o, d)[LineOf(d, r, c)]
  {
    var k := LineOf(d, r, c);
    CellChangedAt(g, o, d, r, c);
    ChangedBeforeIff(InLine(g, d, k), o[k].result, SIZE);
  }

  /** For any outcomes: if some line changes, some cell of the written board changes. */
  lemma SomeLineChanged(g: Board, o: seq<Outcome>, d: Dir)
    requires Shape(g) && Sized(o) && Any(Changes(g, o, d), |g|)
    ensures exists r, c :: InBounds(r, c) && CellChanged(g, Slid(o, d), r, c)
  {
    AnyIff(Changes(g, o, d), |g|);
    var k :| 0 <= k < SIZE && Changes(g, o, d)[k];
    var r, c := ChangedLineCell(g, o, d, k);
  }

  /** For any outcomes: if some cell of the written board changes, some line changes. */
  lemma SomeCellChanged(g: Board, o: seq<Outcome>, d: Dir, r: int, c: int)
    requires Shape(g) && Sized(o) && InBounds(r, c) && CellChanged(g, Slid(o, d), r, c)
    ensures Any(Changes(g, o, d), |g|)
  {
    ChangedCellLine(g, o, d, r, c);
    AnyIff(Changes(g, o, d), |g|);
  }

  /** The line-by-line test `move` accumulates is true exactly when some cell holds a different reference. */
  lemma MovedIff(g: Board, d: Dir)
    requires Shape(g)
    ensures Any(Changes(g, Outs(g, d), d), SIZE) <==> Moved(g, d)
  {
    var o := Outs(g, d);
    if Any(Changes(g, o, d), SIZE) {
      SomeLineChanged(g, o, d);
    }
    if Moved(g, d) {
      var r, c :| InBounds(r, c) && CellChanged(g, Slid(o, d), r, c);
      SomeCellChanged(g, o, d, r, c);
    }
  }

  /** A line that `processLine` leaves with every slot holding the same reference comes back as it went in. */
  lemma UnchangedLine(a: Line)
    requires |a| == SIZE && |Resolved(a).result| == SIZE && !LineChanged(a, Resolved(a).result)
    ensures Resolved(a) == Outcome(a, 0, [])
  {
    ChangedBeforeIff(a, Resolved(a).result, SIZE);
    assert forall j :: 0 <= j < SIZE ==> !Differs(a, Resolved(a).result, j);
    ResolvedFixpoint(a);
  }

  lemma {:induction false} SumZero(s: seq<nat>, k: int)
    requires 0 <= k <= |s| && forall i :: 0 <= i < |s| ==> s[i] == 0
    ensures Sum(s, k) == 0
    decreases k
  {
    if k > 0 {
      SumZero(s, k - 1);
    }
  }

  lemma {:induction false} ConcatEmpty(s: seq<seq<Tile>>, k: int)
    requires 0 <= k <= |s| && forall i :: 0 <= i < |s| ==> s[i] == []
    ensures Concat(s, k) == []
    decreases k
  {
    if k > 0 {
      ConcatEmpty(s, k - 1);
    }
  }

  /** A cell whose line comes back unchanged keeps its occupant, given that it sits at its own coordinates. */
  lemma IdleCell(g: Board, o: seq<Outcome>, d: Dir, r: int, c: int)
    requires Shape(g) && Placement(g) && Sized(o) && InBounds(r, c)
    requires o[LineOf(d, r, c)].result == InLine(g, d, LineOf(d, r, c))
    ensures SlidCell(o, d, r, c) == g[r][c]
  {
  }

  /** For any outcomes that give every line back unchanged: the written board is the old one. */
  lemma IdleBoard(g: Board, o: seq<Outcome>, d: Dir)
    requires Shape(g) && Placement(g) && Sized(o)
    requires forall k :: 0 <= k < SIZE ==> o[k] == Outcome(InLine(g, d, k), 0, [])
    ensures Slid(o, d) == g
  {
    forall r, c | InBounds(r, c) ensures SlidCell(o, d, r, c) == g[r][c] {
      IdleCell(g, o, d, r, c);
    }
    BoardEq(Slid(o, d), g);
  }

  /** For any outcomes with no gain and no absorbed tile in any line: nothing gained, nothing absorbed in all. */
  lemma IdleTotals(o: seq<Outcome>, d: Dir)
    requires Sized(o)
    requires forall k :: 0 <= k < SIZE ==> o[k].gained == 0 && o[k].removed == []
    ensures Sum(Gains(o), |o|) == 0 && Concat(Removals(o, d), |o|) == []
  {
    SumZero(Gains(o), |o|);
    ConcatEmpty(Removals(o, d), |o|);
  }

  /**
   * A move that reports nothing moved leaves the board as it was, gains
   * nothing and absorbs nothing: this is why `move` may skip it.
   */
  lemma NoMoveFixpoint(g: Board, d: Dir)
    requires Shape(g) && Placement(g) && !Moved(g, d)
    ensures SlidGrid(g, d) == g
    ensures GainedTotal(g, d) == 0 && RemovedTiles(g, d) == []
  {
    IdleLines(g, d);
    IdleBoard(g, Outs(g, d), d);
    IdleTotals(Outs(g, d), d);
  }

  /** When nothing moved, every line comes back as it was, with nothing gained or absorbed. */
  lemma IdleLines(g: Board, d: Dir)
    requires Shape(g) && !Moved(g, d)
    ensures forall k :: 0 <= k < SIZE ==> Outs(g, d)[k] == Outcome(InLine(g, d, k), 0, [])
  {
    var o := Outs(g, d);
    MovedIff(g, d);
    AnyIff(Changes(g, o, d), |g|);
    forall k | 0 <= k < SIZE ensures o[k] == Outcome(InLine(g, d, k), 0, []) {
      assert !Changes(g, o, d)[k];
      UnchangedLine(InLine(g, d, k));
    }
  }

  /** A line compared with itself has no changed slot. */
  lemma UnchangedBack(a: Line)
    ensures !LineChanged(a, a)
  {
    ChangedBeforeIff(a, a, |a|);
  }

  /** A line that changes, if a full result would have come back unchanged, ends in an empty slot. */
  lemma LastSlotFree(g: Board, o: seq<Outcome>, d: Dir, k: int)
    requires Shape(g) && Sized(o) && 0 <= k < SIZE && Changes(g, o, d)[k]
    requires o[k].result[SIZE - 1].Some? ==> o[k] == Outcome(InLine(g, d, k), 0, [])
    ensures o[k].result[SIZE - 1].None?
  {
    if o[k].result[SIZE - 1].Some? {
      UnchangedBack(InLine(g, d, k));
      assert false;
    }
  }

  /**
   * For any outcomes in which a line whose last slot is filled comes back
   * unchanged: if some line changed, the written board has an empty cell.
   */
  lemma ChangedLeavesRoom(g: Board, o: seq<Outcome>, d: Dir)
    requires Shape(g) && Sized(o) && Any(Changes(g, o, d), |g|)
    requires forall k :: 0 <= k < SIZE && o[k].result[SIZE - 1].Some? ==> o[k] == Outcome(InLine(g, d, k), 0, [])
    ensures |EmptyCellsOf(Slid(o, d))| > 0
  {
    AnyIff(Changes(g, o, d), |g|);
    var k :| 0 <= k < SIZE && Changes(g, o, d)[k];
    LastSlotFree(g, o, d, k);
    var r, c := CellRow(d, k, SIZE - 1), CellCol(d, k, SIZE - 1);
    SlidAtSlot(o, d, k, SIZE - 1);
    HasEmptyCell(Slid(o, d), r, c);
  }

  /**
   * On a board whose tiles sit at their own coordinates, `moved` (some cell
   * holds a different reference) is the same as the board changing at all.
   */
  lemma MovedIffChanged(g: Board, d: Dir)
    requires Shape(g) && Placement(g)
    ensures Moved(g, d) <==> SlidGrid(g, d) != g
  {
    if Moved(g, d) {
      var r, c :| InBounds(r, c) && CellChanged(g, SlidGrid(g, d), r, c);
      assert SlidGrid(g, d)[r][c] != g[r][c];
    } else {
      NoMoveFixpoint(g, d);
    }
  }

  /** A move that changed the board leaves at least one empty cell, so the spawn that follows it always places a tile. */
  lemma MovedLeavesRoom(g: Board, d: Dir)
    requires Shape(g) && Placement(g) && SlidGrid(g, d) != g
    ensures |EmptyCellsOf(SlidGrid(g, d))| > 0
  {
    var o := Outs(g, d);
    MovedIffChanged(g, d);
    MovedIff(g, d);
    forall k | 0 <= k < SIZE && o[k].result[SIZE - 1].Some? ensures o[k] == Outcome(InLine(g, d, k), 0, []) {
      ResolvedFull(InLine(g, d, k));
    }
    ChangedLeavesRoom(g, o, d);
  }

  lemma {:induction false} SumValuesAppend(a: seq<Tile>, b: seq<Tile>)
    ensures SumValues(a + b) == SumValues(a) + SumValues(b)
    decreases |a|
  {
    if a == [] {
      assert a + b == b;
    } else {
      assert (a + b)[1..] == a[1..] + b;
      SumValuesAppend(a[1..], b);
    }
  }

  /** Relocating absorbed tiles keeps their values. */
  lemma {:induction false} SumValuesRelocated(ts: seq<Tile>, d: Dir, k: int)
    ensures SumValues(RelocateAll(ts, d, k)) == SumValues(ts)
    decreases |ts|
  {
    if ts != [] {
      assert RelocateAll(ts, d, k)[1..] == RelocateAll(ts[1..], d, k);
      SumValuesRelocated(ts[1..], d, k);
    }
  }

  /** Numbers each twice the value of a sequence of tiles: so are their sums, for the sequences one after the other. */
  lemma {:induction false} SumTwiceConcat(v: seq<nat>, s: seq<seq<Tile>>, n: int)
    requires 0 <= n <= |v| == |s|
    requires forall k :: 0 <= k < |v| ==> v[k] == 2 * SumValues(s[k])
    ensures Sum(v, n) == 2 * SumValues(Concat(s, n))
    decreases n
  {
    if n > 0 {
      SumTwiceConcat(v, s, n - 1);
      SumValuesAppend(Concat(s, n - 1), s[n - 1]);
    }
  }

  /** For any outcomes in which each line gains twice the value it absorbs: so do all lines together. */
  lemma GainsTwiceRemovals(o: seq<Outcome>, d: Dir)
    requires forall k :: 0 <= k < |o| ==> o[k].gained == 2 * SumValues(o[k].removed)
    ensures Sum(Gains(o), |o|) == 2 * SumValues(Concat(Removals(o, d), |o|))
  {
    forall k | 0 <= k < |o| ensures Gains(o)[k] == 2 * SumValues(Removals(o, d)[k]) {
      SumValuesRelocated(o[k].removed, d, k);
    }
    SumTwiceConcat(Gains(o), Removals(o, d), |o|);
  }

  /** The score a move adds is twice the total value of the tiles it absorbs: each merge scores the doubled value. */
  lemma GainedTwiceRemoved(g: Board, d: Dir)
    requires Shape(g)
    ensures GainedTotal(g, d) == 2 * SumValues(RemovedTiles(g, d))
  {
    var o := Outs(g, d);
    forall k | 0 <= k < |o| ensures o[k].gained == 2 * SumValues(o[k].removed) {
      ResolvedConserves(InLine(g, d, k));
    }
    GainsTwiceRemovals(o, d);
  }

  /** Sequences of tiles holding powers of two, one after the other, hold powers of two. */
  lemma {:induction false} ConcatPow2(s: seq<seq<Tile>>, n: int)
    requires 0 <= n <= |s|
    requires forall k :: 0 <= k < n ==> Pow2Tiles(s[k])
    ensures Pow2Tiles(Concat(s, n))
    decreases n
  {
    if n > 0 {
      ConcatPow2(s, n - 1);
      var front: seq<Tile>, last: seq<Tile> := Concat(s, n - 1), s[n - 1];
      assert Concat(s, n) == front + last;
      forall i: int | 0 <= i < |front + last| ensures Pow2((front + last)[i].value) {
        if i >= |front| {
          assert (front + last)[i] == last[i - |front|];
        }
      }
    }
  }

  /** Line `k` of a board of powers of two resolves to powers of two. */
  lemma LinePow2(g: Board, d: Dir, k: int)
    requires Shape(g) && Pow2Board(g) && 0 <= k < SIZE
    ensures Pow2Line(Outs(g, d)[k].result) && Pow2Tiles(Outs(g, d)[k].removed)
    ensures Pow2Tiles(Removals(Outs(g, d), d)[k])
  {
    var line := InLine(g, d, k);
    assert Pow2Line(line);
    ResolvedPow2(line);
  }

  /**
   * A move on a board of powers of two leaves powers of two on the board
   * and among the absorbed tiles, and it scores exactly when some tile is
   * absorbed: every merge adds a positive value.
   */
  lemma SlideKeepsPow2(g: Board, d: Dir)
    requires Shape(g) && Pow2Board(g)
    ensures Pow2Board(SlidGrid(g, d)) && Pow2Tiles(RemovedTiles(g, d))
    ensures GainedTotal(g, d) > 0 <==> RemovedTiles(g, d) != []
  {
    var o := Outs(g, d);
    var h: Board := SlidGrid(g, d);
    forall k | 0 <= k < SIZE ensures Pow2Line(o[k].result) && Pow2Tiles(Removals(o, d)[k]) {
      LinePow2(g, d, k);
    }
    forall r: int, c: int | InBounds(r, c) && h[r][c].Some? ensures Pow2(h[r][c].val.value) {
      var k, j := LineOf(d, r, c), PosOf(d, r, c);
      assert h[r][c] == Placed(o[k].result[j], r, c);
    }
    ConcatPow2(Removals(o, d), SIZE);
    GainedTwiceRemoved(g, d);
    SumValuesPositive(RemovedTiles(g, d));
  }

  /** Line by line, the total value of the tiles in the lines of direction `d`. */
  function LineValues(g: Board, d: Dir): (s: seq<nat>)
    requires Shape(g)
    ensures |s| == SIZE
    ensures forall k :: 0 <= k < SIZE ==> s[k] == SumValues(Filter(InLine(g, d, k)))
  {
    seq(SIZE, k requires 0 <= k < SIZE => SumValues(Filter(InLine(g, d, k))))
  }

  /** The total value of the tiles on the board, counted along the lines of direction `d`. */
  function BoardValue(g: Board, d: Dir): nat
    requires Shape(g)
  {
    Sum(LineValues(g, d), |g|)
  }

  /** Two lines with the same cells occupied by tiles of the same values hold the same total value. */
  lemma {:induction false} SameValues(a: Line, b: Line)
    requires |a| == |b|
    requires forall i :: 0 <= i < |a| ==> a[i].Some? == b[i].Some?
    requires forall i :: 0 <= i < |a| && a[i].Some? ==> a[i].val.value == b[i].val.value
    ensures SumValues(Filter(a)) == SumValues(Filter(b))
    decreases |a|
  {
    if a != [] {
      SameValues(a[1..], b[1..]);
    }
  }

  /** Line `k` of the written board, read in direction `d`, holds the outcome's tiles slot by slot. */
  lemma SlidLine(o: seq<Outcome>, d: Dir, k: int)
    requires Sized(o) && 0 <= k < SIZE
    ensures forall j :: 0 <= j < SIZE ==> InLine(Slid(o, d), d, k)[j] == Placed(o[k].result[j], CellRow(d, k, j), CellCol(d, k, j))
  {
    forall j | 0 <= j < SIZE
      ensures InLine(Slid(o, d), d, k)[j] == Placed(o[k].result[j], CellRow(d, k, j), CellCol(d, k, j))
    {
      SlidAtSlot(o, d, k, j);
    }
  }

  /** For any outcomes that keep each line's total value: the written board keeps it line by line. */
  lemma LinesKeepValue(g: Board, o: seq<Outcome>, d: Dir)
    requires Shape(g) && Sized(o)
    requires forall k :: 0 <= k < SIZE ==> SumValues(Filter(o[k].result)) == SumValues(Filter(InLine(g, d, k)))
    ensures LineValues(Slid(o, d), d) == LineValues(g, d)
  {
    forall k | 0 <= k < SIZE ensures LineValues(Slid(o, d), d)[k] == LineValues(g, d)[k] {
      SlidLine(o, d, k);
      SameValues(InLine(Slid(o, d), d, k), o[k].result);
    }
  }

  /**
   * A move keeps the total value on the board: a merge replaces two tiles
   * of value v by one of value 2v. (The score gained is extra to the board,
   * not part of it.)
   */
  lemma SlideKeepsValue(g: Board, d: Dir)
    requires Shape(g)
    ensures BoardValue(SlidGrid(g, d), d) == BoardValue(g, d)
  {
    var o := Outs(g, d);
    forall k | 0 <= k < SIZE ensures SumValues(Filter(o[k].result)) == SumValues(Filter(InLine(g, d, k))) {
      ResolvedConserves(InLine(g, d, k));
    }
    LinesKeepValue(g, o, d);
  }

  /** The value of a cell's tile, 0 when the cell is empty. */
  function CellValue(t: Option<Tile>): nat
  {
    if t.Some? then t.val.value else 0
  }

  /** The value of a line is its first cell's value plus that of the rest. */
  lemma FilterValueCons(line: Line)
    requires line != []
    ensures SumValues(Filter(line)) == CellValue(line[0]) + SumValues(Filter(line[1..]))
  {
    if line[0].Some? {
      assert ([line[0].val] + Filter(line[1..]))[1..] == Filter(line[1..]);
    }
  }

  /** The value of a line of SIZE (four) cells, cell by cell. */
  lemma LineValueByCell(line: Line)
    requires |line| == SIZE
    ensures SumValues(Filter(line)) == CellValue(line[0]) + CellValue(line[1]) + CellValue(line[2]) + CellValue(line[3])
  {
    FilterValueCons(line);
    FilterValueCons(line[1..]);
    FilterValueCons(line[2..]);
    FilterValueCons(line[3..]);
    assert line[1..][1..] == line[2..] && line[2..][1..] == line[3..] && line[3..][1..] == [];
  }

  /** The board's value along the lines of `d`, as the board's SIZE lines one after the other. */
  lemma BoardValueByLine(g: Board, d: Dir)
    requires Shape(g)
    ensures BoardValue(g, d) ==
      SumValues(Filter(InLine(g, d, 0))) + SumValues(Filter(InLine(g, d, 1))) +
      SumValues(Filter(InLine(g, d, 2))) + SumValues(Filter(InLine(g, d, 3)))
  {
    var s := LineValues(g, d);
    assert Sum(s, |g|) == s[0] + s[1] + s[2] + s[3];
  }

  /** The board's value along the lines of `d`, cell by cell. */
  lemma BoardValueByCell(g: Board, d: Dir)
    requires Shape(g)
    ensures BoardValue(g, d) ==
      CellValue(g[0][0]) + CellValue(g[0][1]) + CellValue(g[0][2]) + CellValue(g[0][3]) +
      CellValue(g[1][0]) + CellValue(g[1][1]) + CellValue(g[1][2]) + CellValue(g[1][3]) +
      CellValue(g[2][0]) + CellValue(g[2][1]) + CellValue(g[2][2]) + CellValue(g[2][3]) +
      CellValue(g[3][0]) + CellValue(g[3][1]) + CellValue(g[3][2]) + CellValue(g[3][3])
  {
    BoardValueByLine(g, d);
    LineValueByCell(InLine(g, d, 0));
    LineValueByCell(InLine(g, d, 1));
    LineValueByCell(InLine(g, d, 2));
    LineValueByCell(InLine(g, d, 3));
  }

  /** The board's value does not depend on the direction its lines are read in. */
  lemma BoardValueAnyDir(g: Board, d: Dir)
    requires Shape(g)
    ensures BoardValue(g, d) == BoardValue(g, Left)
  {
    BoardValueByCell(g, d);
    BoardValueByCell(g, Left);
  }

  /** So a move keeps the board's value however it is counted. */
  lemma SlideKeepsTotal(g: Board, d: Dir)
    requires Shape(g)
    ensures BoardValue(SlidGrid(g, d), Left) == BoardValue(g, Left)
  {
    SlideKeepsValue(g, d);
    BoardValueAnyDir(g, d);
    BoardValueAnyDir(SlidGrid(g, d), d);
  }

  /** A tile of the written board, when each outcome keeps only tiles of its line, comes from a slot of its line. */
  lemma SlidTileFrom(g: Board, o: seq<Outcome>, d: Dir, r: int, c: int) returns (j: int)
    requires Shape(g) && Sized(o) && InBounds(r, c) && Slid(o, d)[r][c].Some?
    requires LineIds(o[LineOf(d, r, c)].result) <= LineIds(InLine(g, d, LineOf(d, r, c)))
    ensures 0 <= j < SIZE && InLine(g, d, LineOf(d, r, c))[j].Some?
    ensures InLine(g, d, LineOf(d, r, c))[j].val.id == Slid(o, d)[r][c].val.id
  {
    var k, p := LineOf(d, r, c), PosOf(d, r, c);
    var id := Slid(o, d)[r][c].val.id;
    assert IdOf(o[k].result[p]) == Some(id);
    assert id in LineIds(o[k].result);
    var line := InLine(g, d, k);
    j :| 0 <= j < |line| && line[j].Some? && line[j].val.id == id;
  }

  /** For any outcomes that keep only tiles of their lines: every id on the written board was on the board before. */
  lemma SlidIdsWithin(g: Board, o: seq<Outcome>, d: Dir)
    requires Shape(g) && Sized(o)
    requires forall k :: 0 <= k < SIZE ==> LineIds(o[k].result) <= LineIds(InLine(g, d, k))
    ensures BoardIds(Slid(o, d)) <= BoardIds(g)
  {
    forall id | id in BoardIds(Slid(o, d)) ensures id in BoardIds(g) {
      var r, c :| 0 <= r < SIZE && 0 <= c < SIZE && Slid(o, d)[r][c].Some? && Slid(o, d)[r][c].val.id == id;
      var j := SlidTileFrom(g, o, d, r, c);
      var k := LineOf(d, r, c);
      assert g[CellRow(d, k, j)][CellCol(d, k, j)] == InLine(g, d, k)[j];
    }
  }

  /** A board whose cells hold distinct tiles has distinct tiles along each line. */
  lemma DistinctInLine(g: Board, d: Dir, k: int)
    requires Shape(g) && DistinctIds(g) && 0 <= k < SIZE
    ensures DistinctLine(InLine(g, d, k))
  {
    var line := InLine(g, d, k);
    forall i, j | 0 <= i < j < |line| && line[i].Some? && line[j].Some? ensures line[i].val.id != line[j].val.id {
      CellOfSlot(d, k, i);
      CellOfSlot(d, k, j);
    }
  }

  /** Two cells of the written board holding the same id are the same cell. */
  lemma SameIdSameCell(g: Board, o: seq<Outcome>, d: Dir, r1: int, c1: int, r2: int, c2: int)
    requires Shape(g) && Sized(o) && DistinctIds(g)
    requires forall k :: 0 <= k < SIZE ==> LineIds(o[k].result) <= LineIds(InLine(g, d, k))
    requires forall k :: 0 <= k < SIZE ==> DistinctLine(o[k].result)
    requires InBounds(r1, c1) && InBounds(r2, c2) && Slid(o, d)[r1][c1].Some? && Slid(o, d)[r2][c2].Some?
    requires Slid(o, d)[r1][c1].val.id == Slid(o, d)[r2][c2].val.id
    ensures r1 == r2 && c1 == c2
  {
    var k1, k2 := LineOf(d, r1, c1), LineOf(d, r2, c2);
    var j1 := SlidTileFrom(g, o, d, r1, c1);
    var j2 := SlidTileFrom(g, o, d, r2, c2);
    CellOfSlot(d, k1, j1);
    CellOfSlot(d, k2, j2);
    assert k1 == k2;
    var p1, p2 := PosOf(d, r1, c1), PosOf(d, r2, c2);
    assert IdOf(o[k1].result[p1]) == IdOf(o[k1].result[p2]);
    assert p1 == p2;
  }

  /** For any outcomes that keep only tiles of their lines, each line distinct: the written board holds distinct tiles. */
  lemma SlidDistinct(g: Board, o: seq<Outcome>, d: Dir)
    requires Shape(g) && Sized(o) && DistinctIds(g)
    requires forall k :: 0 <= k < SIZE ==> LineIds(o[k].result) <= LineIds(InLine(g, d, k))
    requires forall k :: 0 <= k < SIZE ==> DistinctLine(o[k].result)
    ensures DistinctIds(Slid(o, d))
  {
    var h: Board := Slid(o, d);
    forall r1: int, c1: int, r2: int, c2: int |
      InBounds(r1, c1) && InBounds(r2, c2) && h[r1][c1].Some? && h[r2][c2].Some? && h[r1][c1].val.id == h[r2][c2].val.id
      ensures r1 == r2 && c1 == c2
    {
      SameIdSameCell(g, o, d, r1, c1, r2, c2);
    }
  }

  /**
   * A move keeps the board's tiles distinct and brings no new tile: every
   * id on the board after it was on the board before. (Every tile stays
   * at its own coordinates, by `Slid`'s own contract.) `MoveAccountsTiles`
   * below says where the other tiles go.
   */
  lemma MoveKeepsIds(g: Board, d: Dir)
    requires Shape(g) && DistinctIds(g)
    ensures BoardIds(SlidGrid(g, d)) <= BoardIds(g)
    ensures DistinctIds(SlidGrid(g, d))
  {
    var o := Outs(g, d);
    forall k | 0 <= k < SIZE ensures LineIds(o[k].result) <= LineIds(InLine(g, d, k)) && DistinctLine(o[k].result) {
      ResolvedIds(InLine(g, d, k));
      DistinctInLine(g, d, k);
    }
    SlidIdsWithin(g, o, d);
    SlidDistinct(g, o, d);
  }

  /** The ids of two sequences of tiles, one after the other, are the ids of each. */
  lemma TileIdsAppend(a: seq<Tile>, b: seq<Tile>)
    ensures TileIds(a + b) == TileIds(a) + TileIds(b)
  {
    forall x | x in TileIds(a + b) ensures x in TileIds(a) + TileIds(b) {
      var i :| 0 <= i < |a + b| && (a + b)[i].id == x;
      if i < |a| {
        assert (a + b)[i] == a[i];
      } else {
        assert (a + b)[i] == b[i - |a|];
      }
    }
    forall x | x in TileIds(a) + TileIds(b) ensures x in TileIds(a + b) {
      if x in TileIds(a) {
        var i :| 0 <= i < |a| && a[i].id == x;
        assert (a + b)[i] == a[i];
      } else {
        var i :| 0 <= i < |b| && b[i].id == x;
        assert (a + b)[|a| + i] == b[i];
      }
    }
  }

  /** Two sequences of distinct tiles with no id in common are distinct one after the other. */
  lemma DistinctAppend(a: seq<Tile>, b: seq<Tile>)
    requires DistinctTiles(a) && DistinctTiles(b) && TileIds(a) !! TileIds(b)
    ensures DistinctTiles(a + b)
  {
    forall i, j | 0 <= i < j < |a + b| ensures (a + b)[i].id != (a + b)[j].id {
      if j < |a| {
        assert (a + b)[i] == a[i] && (a + b)[j] == a[j];
      } else if i >= |a| {
        assert (a + b)[i] == b[i - |a|] && (a + b)[j] == b[j - |a|];
      } else {
        assert (a + b)[i] == a[i] && (a + b)[j] == b[j - |a|];
        assert a[i].id in TileIds(a) && b[j - |a|].id in TileIds(b);
      }
    }
  }

  /** An id is among the first `n` sequences one after the other exactly when it is in one of them. */
  lemma {:induction false} ConcatIds(s: seq<seq<Tile>>, n: int, x: nat)
    requires 0 <= n <= |s|
    ensures x in TileIds(Concat(s, n)) <==> exists k :: 0 <= k < n && x in TileIds(s[k])
    decreases n
  {
    if n > 0 {
      ConcatIds(s, n - 1, x);
      TileIdsAppend(Concat(s, n - 1), s[n - 1]);
    }
  }

  /** Sequences of distinct tiles, with no id shared between two of them, are distinct one after the other. */
  lemma {:induction false} ConcatDistinct(s: seq<seq<Tile>>, n: int)
    requires 0 <= n <= |s|
    requires forall k :: 0 <= k < n ==> DistinctTiles(s[k])
    requires forall k1, k2 :: 0 <= k1 < k2 < n ==> TileIds(s[k1]) !! TileIds(s[k2])
    ensures DistinctTiles(Concat(s, n))
    decreases n
  {
    if n > 0 {
      ConcatDistinct(s, n - 1);
      var front, last := Concat(s, n - 1), s[n - 1];
      forall x: nat | x in TileIds(front) ensures x !in TileIds(last) {
        ConcatIds(s, n - 1, x);
      }
      DistinctAppend(front, last);
    }
  }

  /** Relocating absorbed tiles keeps their ids, and so keeps them distinct. */
  lemma RelocatedIds(ts: seq<Tile>, d: Dir, k: int)
    ensures TileIds(RelocateAll(ts, d, k)) == TileIds(ts)
    ensures DistinctTiles(ts) ==> DistinctTiles(RelocateAll(ts, d, k))
  {
    var us := RelocateAll(ts, d, k);
    forall x | x in TileIds(us) ensures x in TileIds(ts) {
      var i :| 0 <= i < |us| && us[i].id == x;
      assert ts[i].id == x;
    }
    forall x | x in TileIds(ts) ensures x in TileIds(us) {
      var i :| 0 <= i < |ts| && ts[i].id == x;
      assert us[i].id == x;
    }
  }

  /** The board holds an id exactly when one of the lines of direction `d` does. */
  lemma BoardIdsByLine(g: Board, d: Dir, x: nat)
    requires Shape(g)
    ensures x in BoardIds(g) <==> exists k :: 0 <= k < SIZE && x in LineIds(InLine(g, d, k))
  {
    if x in BoardIds(g) {
      var r, c :| 0 <= r < SIZE && 0 <= c < SIZE && g[r][c].Some? && g[r][c].val.id == x;
      var k, j := LineOf(d, r, c), PosOf(d, r, c);
      assert InLine(g, d, k)[j] == g[r][c];
      assert x in LineIds(InLine(g, d, k));
    }
    if exists k :: 0 <= k < SIZE && x in LineIds(InLine(g, d, k)) {
      var k :| 0 <= k < SIZE && x in LineIds(InLine(g, d, k));
      var line := InLine(g, d, k);
      var j :| 0 <= j < |line| && line[j].Some? && line[j].val.id == x;
      var r, c := CellRow(d, k, j), CellCol(d, k, j);
      assert g[r][c] == line[j];
    }
  }

  /** The line of direction `d` that holds id `x` of the board. */
  lemma LineHolding(g: Board, d: Dir, x: nat) returns (k: int)
    requires Shape(g) && x in BoardIds(g)
    ensures 0 <= k < SIZE && x in LineIds(InLine(g, d, k))
  {
    var r, c :| 0 <= r < SIZE && 0 <= c < SIZE && g[r][c].Some? && g[r][c].val.id == x;
    k := LineOf(d, r, c);
    var j := PosOf(d, r, c);
    assert InLine(g, d, k)[j] == g[r][c];
  }

  /** Line `k` of the written board holds the ids of the outcome's result. */
  lemma SlidLineIds(o: seq<Outcome>, d: Dir, k: int)
    requires Sized(o) && 0 <= k < SIZE
    ensures LineIds(InLine(Slid(o, d), d, k)) == LineIds(o[k].result)
  {
    var line, res := InLine(Slid(o, d), d, k), o[k].result;
    SlidLine(o, d, k);
    forall x | x in LineIds(line) ensures x in LineIds(res) {
      var j :| 0 <= j < |line| && line[j].Some? && line[j].val.id == x;
      assert IdOf(res[j]) == IdOf(line[j]);
    }
    forall x | x in LineIds(res) ensures x in LineIds(line) {
      var j :| 0 <= j < |res| && res[j].Some? && res[j].val.id == x;
      assert IdOf(line[j]) == IdOf(res[j]);
    }
  }

  /** On a board of distinct tiles, an id held by two lines of the same direction is held by one line only. */
  lemma SharedIdSameLine(g: Board, d: Dir, k1: int, k2: int)
    requires Shape(g) && DistinctIds(g) && 0 <= k1 < SIZE && 0 <= k2 < SIZE
    ensures forall x :: x in LineIds(InLine(g, d, k1)) && x in LineIds(InLine(g, d, k2)) ==> k1 == k2
  {
    var l1, l2 := InLine(g, d, k1), InLine(g, d, k2);
    forall x | x in LineIds(l1) && x in LineIds(l2) ensures k1 == k2 {
      var j1 :| 0 <= j1 < |l1| && l1[j1].Some? && l1[j1].val.id == x;
      var j2 :| 0 <= j2 < |l2| && l2[j2].Some? && l2[j2].val.id == x;
      CellOfSlot(d, k1, j1);
      CellOfSlot(d, k2, j2);
    }
  }

  /** Line by line, the tiles of the written board and the absorbed ones of line `k` come from line `k`. */
  lemma AbsorbedFromLine(g: Board, o: seq<Outcome>, d: Dir, x: nat, k: int)
    requires Shape(g) && Sized(o) && 0 <= k < SIZE
    requires LineIds(o[k].result) + TileIds(o[k].removed) == LineIds(InLine(g, d, k))
    requires x in TileIds(Removals(o, d)[k])
    ensures x in TileIds(o[k].removed) && x in LineIds(InLine(g, d, k))
  {
    RelocatedIds(o[k].removed, d, k);
  }

  /** Line by line, the ids of the written board are those of the outcomes' results. */
  lemma SlidBoardIds(o: seq<Outcome>, d: Dir, x: nat)
    requires Sized(o)
    ensures x in BoardIds(Slid(o, d)) <==> exists k :: 0 <= k < SIZE && x in LineIds(o[k].result)
  {
    var h := Slid(o, d);
    forall k | 0 <= k < SIZE ensures LineIds(InLine(h, d, k)) == LineIds(o[k].result) {
      SlidLineIds(o, d, k);
    }
    BoardIdsByLine(h, d, x);
  }

  /** For outcomes that split each line's tiles into survivors and absorbed tiles, id `x` is on the board before exactly when it is kept or absorbed. */
  lemma SlidCoversAt(g: Board, o: seq<Outcome>, d: Dir, x: nat)
    requires Shape(g) && Sized(o)
    requires forall k :: 0 <= k < SIZE ==> LineIds(o[k].result) + TileIds(o[k].removed) == LineIds(InLine(g, d, k))
    ensures x in BoardIds(g) <==> x in BoardIds(Slid(o, d)) || x in TileIds(Concat(Removals(o, d), |o|))
  {
    var s := Removals(o, d);
    BoardIdsByLine(g, d, x);
    SlidBoardIds(o, d, x);
    ConcatIds(s, |o|, x);
    if x in BoardIds(g) {
      var k := LineHolding(g, d, x);
      RelocatedIds(o[k].removed, d, k);
    }
    if x in TileIds(Concat(s, |o|)) {
      var k :| 0 <= k < |o| && x in TileIds(s[k]);
      AbsorbedFromLine(g, o, d, x, k);
    }
  }

  /** For such outcomes, no tile is lost or gained. */
  lemma SlidCovers(g: Board, o: seq<Outcome>, d: Dir)
    requires Shape(g) && Sized(o)
    requires forall k :: 0 <= k < SIZE ==> LineIds(o[k].result) + TileIds(o[k].removed) == LineIds(InLine(g, d, k))
    ensures BoardIds(g) == BoardIds(Slid(o, d)) + TileIds(Concat(Removals(o, d), |o|))
  {
    forall x: nat ensures x in BoardIds(g) <==> x in BoardIds(Slid(o, d)) + TileIds(Concat(Removals(o, d), |o|)) {
      SlidCoversAt(g, o, d, x);
    }
  }

  /** For such outcomes over a board of distinct tiles, a kept id `x` is absorbed from no line. */
  lemma KeptNotAbsorbed(g: Board, o: seq<Outcome>, d: Dir, x: nat, k2: int)
    requires Shape(g) && Sized(o) && DistinctIds(g) && 0 <= k2 < SIZE
    requires forall k :: 0 <= k < SIZE ==> LineIds(o[k].result) + TileIds(o[k].removed) == LineIds(InLine(g, d, k))
    requires forall k :: 0 <= k < SIZE ==> LineIds(o[k].result) !! TileIds(o[k].removed)
    ensures x in BoardIds(Slid(o, d)) ==> x !in TileIds(Removals(o, d)[k2])
  {
    SlidBoardIds(o, d, x);
    RelocatedIds(o[k2].removed, d, k2);
    if x in BoardIds(Slid(o, d)) {
      var k1 :| 0 <= k1 < SIZE && x in LineIds(o[k1].result);
      SharedIdSameLine(g, d, k1, k2);
    }
  }

  /** For such outcomes over a board of distinct tiles, no tile is both kept and absorbed. */
  lemma SlidDisjoint(g: Board, o: seq<Outcome>, d: Dir)
    requires Shape(g) && Sized(o) && DistinctIds(g)
    requires forall k :: 0 <= k < SIZE ==> LineIds(o[k].result) + TileIds(o[k].removed) == LineIds(InLine(g, d, k))
    requires forall k :: 0 <= k < SIZE ==> LineIds(o[k].result) !! TileIds(o[k].removed)
    ensures BoardIds(Slid(o, d)) !! TileIds(Concat(Removals(o, d), |o|))
  {
    forall x: nat ensures x in BoardIds(Slid(o, d)) ==> x !in TileIds(Concat(Removals(o, d), |o|)) {
      forall k2 | 0 <= k2 < |o| ensures x in BoardIds(Slid(o, d)) ==> x !in TileIds(Removals(o, d)[k2]) {
        KeptNotAbsorbed(g, o, d, x, k2);
      }
      ConcatIds(Removals(o, d), |o|, x);
    }
  }

  /** For such outcomes over a board of distinct tiles, no tile is absorbed twice. */
  lemma AbsorbedDistinct(g: Board, o: seq<Outcome>, d: Dir)
    requires Shape(g) && Sized(o) && DistinctIds(g)
    requires forall k :: 0 <= k < SIZE ==> LineIds(o[k].result) + TileIds(o[k].removed) == LineIds(InLine(g, d, k))
    requires forall k :: 0 <= k < SIZE ==> DistinctTiles(o[k].removed)
    ensures DistinctTiles(Concat(Removals(o, d), |o|))
  {
    var s := Removals(o, d);
    forall k | 0 <= k < |o| ensures DistinctTiles(s[k]) {
      RelocatedIds(o[k].removed, d, k);
    }
    forall k1, k2 | 0 <= k1 < k2 < |o| ensures TileIds(s[k1]) !! TileIds(s[k2]) {
      SharedIdSameLine(g, d, k1, k2);
      RelocatedIds(o[k1].removed, d, k1);
      RelocatedIds(o[k2].removed, d, k2);
    }
    ConcatDistinct(s, |o|);
  }

  /**
   * No tile is lost by a move: the tiles on the board before it are
   * exactly those on the board after it together with those it absorbed
   * (`removedTiles`); no tile is both, and no tile is absorbed twice.
   */
  lemma MoveAccountsTiles(g: Board, d: Dir)
    requires Shape(g) && DistinctIds(g)
    ensures BoardIds(g) == BoardIds(SlidGrid(g, d)) + TileIds(RemovedTiles(g, d))
    ensures BoardIds(SlidGrid(g, d)) !! TileIds(RemovedTiles(g, d))
    ensures DistinctTiles(RemovedTiles(g, d))
  {
    var o := Outs(g, d);
    forall k | 0 <= k < SIZE
      ensures LineIds(o[k].result) + TileIds(o[k].removed) == LineIds(InLine(g, d, k))
      ensures DistinctTiles(o[k].removed) && LineIds(o[k].result) !! TileIds(o[k].removed)
    {
      ResolvedIds(InLine(g, d, k));
      DistinctInLine(g, d, k);
    }
    SlidCovers(g, o, d);
    SlidDisjoint(g, o, d);
    AbsorbedDistinct(g, o, d);
  }

  /** `line.slice().reverse()`. */
  function Reverse(line: Line): (rev: Line)
    ensures |rev| == |line|
    ensures forall i :: 0 <= i < |line| ==> rev[i] == line[|line| - 1 - i]
  {
    seq(|line|, i requires 0 <= i < |line| => line[|line| - 1 - i])
  }

  /** Column `c` of the board, top to bottom. */
  function Column(g: Board, c: int): (col: Line)
    requires Shape(g) && 0 <= c < SIZE
    ensures |col| == SIZE
    ensures forall r :: 0 <= r < SIZE ==> col[r] == g[r][c]
  {
    seq(SIZE, r requires 0 <= r < SIZE => g[r][c])
  }

  /** `moveLeft`: each row goes through `processLine` as it is and its result is written back left to right. */
  lemma LeftMove(g: Board, r: int)
    requires Shape(g) && 0 <= r < SIZE
    ensures InLine(g, Left, r) == g[r]
    ensures forall c :: 0 <= c < SIZE ==> SlidGrid(g, Left)[r][c] == Placed(Resolved(g[r]).result[c], r, c)
  {
    assert InLine(g, Left, r) == g[r];
  }

  /**
   * `moveRight`: each row goes through `processLine` reversed, and the
   * result is reversed back before it is written.
   */
  lemma RightMove(g: Board, r: int)
    requires Shape(g) && 0 <= r < SIZE
    ensures InLine(g, Right, r) == Reverse(g[r])
    ensures forall c :: 0 <= c < SIZE ==>
      SlidGrid(g, Right)[r][c] == Placed(Reverse(Resolved(Reverse(g[r])).result)[c], r, c)
  {
    assert InLine(g, Right, r) == Reverse(g[r]);
    ResolvedShape(Reverse(g[r]));
  }

  /** `moveUp`: each column goes through `processLine` top to bottom and is written back top to bottom. */
  lemma UpMove(g: Board, c: int)
    requires Shape(g) && 0 <= c < SIZE
    ensures InLine(g, Up, c) == Column(g, c)
    ensures forall r :: 0 <= r < SIZE ==> SlidGrid(g, Up)[r][c] == Placed(Resolved(Column(g, c)).result[r], r, c)
  {
    assert InLine(g, Up, c) == Column(g, c);
  }

  /**
   * `moveDown`: each column goes through `processLine` bottom to top, and
   * the result is reversed back before it is written top to bottom.
   */
  lemma DownMove(g: Board, c: int)
    requires Shape(g) && 0 <= c < SIZE
    ensures InLine(g, Down, c) == Reverse(Column(g, c))
    ensures forall r :: 0 <= r < SIZE ==>
      SlidGrid(g, Down)[r][c] == Placed(Reverse(Resolved(Reverse(Column(g, c))).result)[r], r, c)
  {
    assert InLine(g, Down, c) == Reverse(Column(g, c));
    ResolvedShape(Reverse(Column(g, c)));
  }

  /**
   * The `removed.forEach` step of each move: an absorbed tile of line `k`
   * with `mergeTo` m is given row `k` and column m (left), column
   * SIZE - 1 - m (right), row m and column `k` (up), row SIZE - 1 - m
   * (down).
   */
  lemma RelocatedCoordinates(t: Tile, k: int)
    requires t.mergeTo.Some?
    ensures Relocate(t, Left, k).row == k && Relocate(t, Left, k).col == t.mergeTo.val
    ensures Relocate(t, Right, k).row == k && Relocate(t, Right, k).col == SIZE - 1 - t.mergeTo.val
    ensures Relocate(t, Up, k).row == t.mergeTo.val && Relocate(t, Up, k).col == k
    ensures Relocate(t, Down, k).row == SIZE - 1 - t.mergeTo.val && Relocate(t, Down, k).col == k
  {
  }
}
