/**
 * The four directional moves as one specification. Each direction reads
 * the board as SIZE lines of SIZE slots: line k slot j is cell
 * (CellRow(d, k, j), CellCol(d, k, j)). Left reads row k from the left,
 * Right reads row k reversed, Up reads column k from the top, Down reads
 * column k reversed; each line goes through `processLine` and its output
 * slots are written back to the same cells.
 */
module Moves {
  import opened Tiles
  import opened LineResolver
  import opened LineFacts
  import opened Grid

  datatype Dir = Left | Right | Up | Down

  /** The board row of slot `j` of line `k`. */
  function CellRow(d: Dir, k: int, j: int): (r: int)
    ensures 0 <= k < SIZE && 0 <= j < SIZE ==> 0 <= r < SIZE
  {
    match d
    case Left => k
    case Right => k
    case Up => j
    case Down => SIZE - 1 - j
  }

  /** The board column of slot `j` of line `k`. */
  function CellCol(d: Dir, k: int, j: int): (c: int)
    ensures 0 <= k < SIZE && 0 <= j < SIZE ==> 0 <= c < SIZE
  {
    match d
    case Left => j
    case Right => SIZE - 1 - j
    case Up => k
    case Down => k
  }

  /** The line holding cell (r, c). */
  function LineOf(d: Dir, r: int, c: int): (k: int)
    ensures InBounds(r, c) ==> 0 <= k < SIZE
    ensures CellRow(d, k, PosOf(d, r, c)) == r && CellCol(d, k, PosOf(d, r, c)) == c
  {
    match d
    case Left => r
    case Right => r
    case Up => c
    case Down => c
  }

  /** The slot of cell (r, c) within its line. */
  function PosOf(d: Dir, r: int, c: int): (j: int)
    ensures InBounds(r, c) ==> 0 <= j < SIZE
  {
    match d
    case Left => c
    case Right => SIZE - 1 - c
    case Up => r
    case Down => SIZE - 1 - r
  }

  /** Slot j of line k lies in line k at slot j. */
  lemma CellOfSlot(d: Dir, k: int, j: int)
    ensures LineOf(d, CellRow(d, k, j), CellCol(d, k, j)) == k
    ensures PosOf(d, CellRow(d, k, j), CellCol(d, k, j)) == j
  {
  }

  /** Line `k` as the move reads it (reversed for Right and Down). */
  function InLine(g: Board, d: Dir, k: int): (line: Line)
    requires Shape(g) && 0 <= k < SIZE
    ensures |line| == SIZE
    ensures forall j :: 0 <= j < SIZE ==> line[j] == g[CellRow(d, k, j)][CellCol(d, k, j)]
  {
    seq(SIZE, j requires 0 <= j < SIZE => g[CellRow(d, k, j)][CellCol(d, k, j)])
  }

  /** One outcome per line, each with a full line as its result. */
  predicate Sized(o: seq<Outcome>)
  {
    |o| == SIZE && forall k :: 0 <= k < SIZE ==> |o[k].result| == SIZE
  }

  /**
   * The outcomes of all lines of direction `d`. The board after the move,
   * its gain and its absorbed tiles are defined from these outcomes, so
   * that what follows from the shape of a move alone is stated once for
   * any outcomes and then applied to these.
   */
  function Outs(g: Board, d: Dir): (o: seq<Outcome>)
    requires Shape(g)
    ensures Sized(o)
    ensures forall k {:trigger Resolved(InLine(g, d, k))} :: 0 <= k < SIZE ==> o[k] == Resolved(InLine(g, d, k))
  {
    seq(SIZE, k requires 0 <= k < SIZE => LineOutcome(g, d, k))
  }

  /** What `processLine` returns for line `k`. */
  function LineOutcome(g: Board, d: Dir, k: int): (o: Outcome)
    requires Shape(g) && 0 <= k < SIZE
    ensures o == Resolved(InLine(g, d, k))
    ensures |o.result| == SIZE
  {
    ResolvedShape(InLine(g, d, k));
    Resolved(InLine(g, d, k))
  }

  /** The new occupant of cell (r, c): its line's output slot, placed in the cell. */
  function SlidCell(o: seq<Outcome>, d: Dir, r: int, c: int): Option<Tile>
    requires Sized(o) && InBounds(r, c)
  {
    Placed(o[LineOf(d, r, c)].result[PosOf(d, r, c)], r, c)
  }

  /** The board the outcomes `o` of direction `d` write. */
  function Slid(o: seq<Outcome>, d: Dir): (h: Board)
    requires Sized(o)
    ensures Shape(h) && Placement(h)
    ensures forall r, c :: InBounds(r, c) ==> h[r][c] == SlidCell(o, d, r, c)
  {
    seq(SIZE, r requires 0 <= r < SIZE =>
      seq(SIZE, c requires 0 <= c < SIZE => SlidCell(o, d, r, c)))
  }

  /** The board after the move in direction `d`. */
  function SlidGrid(g: Board, d: Dir): (h: Board)
    requires Shape(g)
    ensures Shape(h) && Placement(h)
  {
    Slid(Outs(g, d), d)
  }

  /** Slot `j` of line `k` of the written board holds the line's output slot `j`. */
  lemma SlidAtSlot(o: seq<Outcome>, d: Dir, k: int, j: int)
    requires Sized(o) && 0 <= k < SIZE && 0 <= j < SIZE
    ensures Slid(o, d)[CellRow(d, k, j)][CellCol(d, k, j)] ==
      Placed(o[k].result[j], CellRow(d, k, j), CellCol(d, k, j))
  {
    CellOfSlot(d, k, j);
  }

  /** Whether the move has written cell (r, c) once it has finished `k` lines and `j` slots of line `k`. */
  predicate Written(d: Dir, k: int, j: int, r: int, c: int)
  {
    LineOf(d, r, c) < k || (LineOf(d, r, c) == k && PosOf(d, r, c) < j)
  }

  /** The board part way through the move. */
  function Partly(g: Board, o: seq<Outcome>, d: Dir, k: int, j: int): (h: Board)
    requires Shape(g) && Sized(o)
    ensures Shape(h)
  {
    seq(SIZE, r requires 0 <= r < SIZE =>
      seq(SIZE, c requires 0 <= c < SIZE =>
        if Written(d, k, j, r, c) then SlidCell(o, d, r, c) else g[r][c]))
  }

  /** The cells of the board part way through the move: the written ones slid, the others as they were. */
  lemma PartlyCells(g: Board, o: seq<Outcome>, d: Dir, k: int, j: int)
    requires Shape(g) && Sized(o)
    ensures forall r, c :: InBounds(r, c) ==>
      Partly(g, o, d, k, j)[r][c] == if Written(d, k, j, r, c) then SlidCell(o, d, r, c) else g[r][c]
  {
  }

  lemma PartlyStart(g: Board, o: seq<Outcome>, d: Dir)
    requires Shape(g) && Sized(o)
    ensures Partly(g, o, d, 0, 0) == g
  {
    PartlyCells(g, o, d, 0, 0);
    BoardEq(Partly(g, o, d, 0, 0), g);
  }

  lemma PartlyNextLine(g: Board, o: seq<Outcome>, d: Dir, k: int)
    requires Shape(g) && Sized(o) && 0 <= k < SIZE
    ensures Partly(g, o, d, k, SIZE) == Partly(g, o, d, k + 1, 0)
  {
    PartlyCells(g, o, d, k, SIZE);
    PartlyCells(g, o, d, k + 1, 0);
    BoardEq(Partly(g, o, d, k, SIZE), Partly(g, o, d, k + 1, 0));
  }

  lemma PartlyEnd(g: Board, o: seq<Outcome>, d: Dir)
    requires Shape(g) && Sized(o)
    ensures Partly(g, o, d, SIZE, 0) == Slid(o, d)
  {
    PartlyCells(g, o, d, SIZE, 0);
    BoardEq(Partly(g, o, d, SIZE, 0), Slid(o, d));
  }

  /** Line `k` has not been touched before the move reaches it. */
  lemma PartlyInLine(g: Board, o: seq<Outcome>, d: Dir, k: int)
    requires Shape(g) && Sized(o) && 0 <= k < SIZE
    ensures InLine(Partly(g, o, d, k, 0), d, k) == InLine(g, d, k)
  {
    PartlyCells(g, o, d, k, 0);
    forall j | 0 <= j < SIZE ensures InLine(Partly(g, o, d, k, 0), d, k)[j] == InLine(g, d, k)[j] {
      CellOfSlot(d, k, j);
    }
  }

  /** Writing slot `j` of line `k` with `setCell` is one step of the move. */
  lemma PartlyStep(g: Board, o: seq<Outcome>, d: Dir, k: int, j: int)
    requires Shape(g) && Sized(o) && 0 <= k < SIZE && 0 <= j < SIZE
    ensures Partly(g, o, d, k, j + 1) ==
      SetCellOf(Partly(g, o, d, k, j), CellRow(d, k, j), CellCol(d, k, j), o[k].result[j])
  {
    var a := Partly(g, o, d, k, j + 1);
    var r0, c0 := CellRow(d, k, j), CellCol(d, k, j);
    var b := SetCellOf(Partly(g, o, d, k, j), r0, c0, o[k].result[j]);
    PartlyCells(g, o, d, k, j);
    PartlyCells(g, o, d, k, j + 1);
    CellOfSlot(d, k, j);
    forall r, c | InBounds(r, c) ensures a[r][c] == b[r][c] {
      if (r, c) != (r0, c0) {
        assert !(LineOf(d, r, c) == k && PosOf(d, r, c) == j);
      }
    }
    BoardEq(a, b);
  }

  /** An absorbed tile of line `k` gets the coordinates of the cell it merged into. */
  function Relocate(t: Tile, d: Dir, k: int): (u: Tile)
    ensures u.id == t.id && u.value == t.value && u.mergeTo == t.mergeTo && u.removing == t.removing
    ensures u.isNew == t.isNew && u.merged == t.merged
    ensures t.mergeTo.Some? ==> u.row == CellRow(d, k, t.mergeTo.val) && u.col == CellCol(d, k, t.mergeTo.val)
    ensures t.mergeTo.None? ==> u == t
  {
    match t.mergeTo
    case Some(m) => t.(row := CellRow(d, k, m), col := CellCol(d, k, m))
    case None => t
  }

  /** Every absorbed tile of line `k`, relocated. */
  function RelocateAll(ts: seq<Tile>, d: Dir, k: int): (us: seq<Tile>)
    ensures |us| == |ts|
    ensures forall i :: 0 <= i < |ts| ==> us[i] == Relocate(ts[i], d, k)
  {
    seq(|ts|, i requires 0 <= i < |ts| => Relocate(ts[i], d, k))
  }

  /** Slot `i` holds a different reference in `a` and `b`. */
  predicate Differs(a: Line, b: Line, i: int)
    requires 0 <= i < |a| && i < |b|
  {
    IdOf(a[i]) != IdOf(b[i])
  }

  /** Cell (r, c) holds a different reference in `h` than in `g`. */
  predicate CellChanged(g: Board, h: Board, r: int, c: int)
    requires Shape(g) && Shape(h) && InBounds(r, c)
  {
    IdOf(h[r][c]) != IdOf(g[r][c])
  }

  /** Some slot among the first `j` holds a different reference in `a` and `b`. */
  predicate ChangedBefore(a: Line, b: Line, j: int)
    requires 0 <= j <= |a| && j <= |b|
    decreases j
  {
    j > 0 && (ChangedBefore(a, b, j - 1) || Differs(a, b, j - 1))
  }

  /** Some slot of the line holds a different reference after resolution. */
  predicate LineChanged(a: Line, b: Line)
    requires |a| <= |b|
  {
    ChangedBefore(a, b, |a|)
  }

  /** Line by line, whether the line changes reference somewhere. */
  function Changes(g: Board, o: seq<Outcome>, d: Dir): (s: seq<bool>)
    requires Shape(g) && Sized(o)
    ensures |s| == SIZE
    ensures forall k :: 0 <= k < SIZE ==> s[k] == LineChanged(InLine(g, d, k), o[k].result)
  {
    seq(SIZE, k requires 0 <= k < SIZE => LineChanged(InLine(g, d, k), o[k].result))
  }

  /** Line by line, the score the line gains. */
  function Gains(o: seq<Outcome>): (s: seq<nat>)
    ensures |s| == |o|
    ensures forall k :: 0 <= k < |o| ==> s[k] == o[k].gained
  {
    seq(|o|, k requires 0 <= k < |o| => o[k].gained)
  }

  /** Line by line, the tiles the line absorbs, relocated. */
  function Removals(o: seq<Outcome>, d: Dir): (s: seq<seq<Tile>>)
    ensures |s| == |o|
    ensures forall k :: 0 <= k < |o| ==> s[k] == RelocateAll(o[k].removed, d, k)
  {
    seq(|o|, k requires 0 <= k < |o| => RelocateAll(o[k].removed, d, k))
  }

  /** Some flag among the first `k` is set. */
  predicate Any(s: seq<bool>, k: int)
    requires 0 <= k <= |s|
    decreases k
  {
    k > 0 && (Any(s, k - 1) || s[k - 1])
  }

  /** The sum of the first `k` numbers. */
  function Sum(s: seq<nat>, k: int): nat
    requires 0 <= k <= |s|
    decreases k
  {
    if k == 0 then 0 else Sum(s, k - 1) + s[k - 1]
  }

  /** The first `k` sequences, one after the other. */
  function Concat(s: seq<seq<Tile>>, k: int): seq<Tile>
    requires 0 <= k <= |s|
    decreases k
  {
    if k == 0 then [] else Concat(s, k - 1) + s[k - 1]
  }

  /** The gain and the absorbed tiles of a move are the accumulations over all SIZE lines. */
  lemma Totals(g: Board, d: Dir)
    requires Shape(g)
    ensures GainedTotal(g, d) == Sum(Gains(Outs(g, d)), SIZE)
    ensures RemovedTiles(g, d) == Concat(Removals(Outs(g, d), d), SIZE)
  {
  }

  /** `moved`: some cell of the board holds a different reference after the move than before. */
  ghost predicate Moved(g: Board, d: Dir)
    requires Shape(g)
  {
    exists r, c :: InBounds(r, c) && CellChanged(g, SlidGrid(g, d), r, c)
  }

  /** `gainedTotal`: the score gained by all lines. */
  function GainedTotal(g: Board, d: Dir): nat
    requires Shape(g)
  {
    Sum(Gains(Outs(g, d)), |g|)
  }

  /** `removedTiles`: the absorbed tiles of all lines, in line order, relocated. */
  function RemovedTiles(g: Board, d: Dir): seq<Tile>
    requires Shape(g)
  {
    Concat(Removals(Outs(g, d), d), |g|)
  }
}
