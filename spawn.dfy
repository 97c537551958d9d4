/**
 * Spawning (`getSpawnValue`, `addRandomTile`). The two `Math.random()`
 * calls of a spawn are passed in as a `Draw`: `roll` stands for the first
 * one as a multiple of 2^-53, a resolution the model chooses (the language
 * leaves the set of values `Math.random()` returns to the engine), so that
 * `Math.floor(Math.random() * n)` is `roll * n / ROLLS`; `percent` stands
 * for the second one, so that `Math.random() < 0.85` is `percent < 85`.
 */
module Spawn {
  import opened Tiles
  import opened Grid

  /** 2^53: the number of roll values the model distinguishes in `[0, 1)`. */
  const ROLLS: nat := 0x20_0000_0000_0000

  /** The random draws of one spawn. */
  datatype Draw = Draw(roll: nat, percent: nat)

  /** Both draws lie in `[0, 1)`, scaled. */
  predicate DrawOk(d: Draw)
  {
    d.roll < ROLLS && d.percent < 100
  }

  /** `Math.floor(Math.random() * n)`: an index into a list of `n` cells. */
  function PickIndex(roll: nat, n: nat): (i: nat)
    requires roll < ROLLS
    ensures n > 0 ==> i < n
  {
    PickIndexBound(roll, n);
    roll * n / ROLLS
  }

  lemma PickIndexBound(roll: nat, n: nat)
    requires roll < ROLLS
    ensures n > 0 ==> roll * n / ROLLS < n
  {
    if n > 0 {
      assert roll * n <= (ROLLS - 1) * n by {
        MulLe(roll, ROLLS - 1, n);
      }
      assert (ROLLS - 1) * n < n * ROLLS;
      DivBelow(roll * n, n, ROLLS);
    }
  }

  lemma MulLe(a: nat, b: nat, n: nat)
    requires a <= b
    ensures a * n <= b * n
  {
  }

  lemma MulLtRev(a: nat, b: nat, n: nat)
    requires a * n < b * n
    ensures a < b
  {
  }

  lemma DivBelow(x: nat, n: nat, d: nat)
    requires d > 0 && x < n * d
    ensures x / d < n
  {
    var q := x / d;
    assert q * d <= x;
    MulLtRev(q, n, d);
  }

  /** Every index is drawn by some roll: every empty cell can receive the spawn. */
  lemma PickIndexOnto(i: nat, n: nat) returns (roll: nat)
    requires i < n <= ROLLS
    ensures roll < ROLLS && PickIndex(roll, n) == i
  {
    var q := i * ROLLS + n - 1;
    roll := q / n;
    assert roll * n <= q < roll * n + n;
    assert i * ROLLS <= roll * n < (i + 1) * ROLLS;
    MulLe(i + 1, n, ROLLS);
    assert roll * n < ROLLS * n;
    MulLtRev(roll, ROLLS, n);
    var x := roll * n;
    DivBelow(x, i + 1, ROLLS);
    assert (x / ROLLS) * ROLLS + x % ROLLS == x;
    assert i * ROLLS < (x / ROLLS + 1) * ROLLS;
    MulLtRev(i, x / ROLLS + 1, ROLLS);
  }

  /** The first roll that picks index `i` of `n`: `i * ROLLS / n`, rounded up. */
  function FirstRoll(i: nat, n: nat): nat
    requires n > 0
  {
    (i * ROLLS + n - 1) / n
  }

  /** `x` reaches `a / n` rounded up exactly when `x * n` reaches `a`. */
  lemma CeilDiv(a: nat, n: nat, x: nat)
    requires n > 0
    ensures x >= (a + n - 1) / n <==> x * n >= a
  {
    var q := (a + n - 1) / n;
    assert q * n <= a + n - 1 < q * n + n;
    if x >= q {
      MulLe(q, x, n);
    }
    if x * n >= a && q > 0 {
      assert (q - 1) * n == q * n - n;
      MulLtRev(q - 1, x, n);
    }
  }

  /** `x / d` is `q` exactly when `q * d <= x < (q + 1) * d`. */
  lemma FloorDiv(x: nat, d: nat, q: nat)
    requires d > 0
    ensures x / d == q <==> q * d <= x < (q + 1) * d
  {
    var p := x / d;
    assert p * d <= x < (p + 1) * d;
    if q * d <= x < (q + 1) * d {
      MulLtRev(p, q + 1, d);
      MulLtRev(q, p + 1, d);
    }
  }

  /** Over `m` rolls, those with `roll * n / m == i` run from `i * m / n` to `(i + 1) * m / n`, rounded up. */
  lemma ScaledRange(roll: nat, i: nat, n: nat, m: nat)
    requires n > 0 && m > 0
    ensures roll * n / m == i <==> (i * m + n - 1) / n <= roll < ((i + 1) * m + n - 1) / n
  {
    FloorDiv(roll * n, m, i);
    CeilDiv(i * m, n, roll);
    CeilDiv((i + 1) * m, n, roll);
  }

  /** Adding `f` multiples of `n` adds `f` to the quotient by `n`. */
  lemma DivAddMul(x: nat, f: nat, n: nat)
    requires n > 0
    ensures (x + f * n) / n == x / n + f
  {
    var p := x / n;
    assert p * n <= x < (p + 1) * n;
    assert (p + f) * n == p * n + f * n && (p + f + 1) * n == (p + 1) * n + f * n;
    FloorDiv(x + f * n, n, p + f);
  }

  /** The quotient by `n` is monotone. */
  lemma DivMono(x: nat, y: nat, n: nat)
    requires n > 0 && x <= y
    ensures x / n <= y / n
  {
    var p, q := x / n, y / n;
    assert p * n <= x && y < (q + 1) * n;
    MulLtRev(p, q + 1, n);
  }

  /** From `a` to `a + m`, the quotient by `n` rounded up grows by `m / n` or by one more. */
  lemma CeilGap(a: nat, m: nat, n: nat)
    requires n > 0
    ensures (a + n - 1) / n + m / n <= (a + m + n - 1) / n <= (a + n - 1) / n + m / n + 1
  {
    var f, rem := m / n, m % n;
    var x := a + n - 1;
    assert a + m + n - 1 == (x + rem) + f * n;
    DivAddMul(x + rem, f, n);
    DivMono(x, x + rem, n);
    DivMono(x + rem, x + 1 * n, n);
    DivAddMul(x, 1, n);
  }

  /** Consecutive bounds `i * m / n` and `(i + 1) * m / n`, rounded up, lie `m / n` or `m / n + 1` apart. */
  lemma ScaledGap(i: nat, n: nat, m: nat)
    requires n > 0
    ensures (i * m + n - 1) / n <= ((i + 1) * m + n - 1) / n
    ensures ((i + 1) * m + n - 1) / n - (i * m + n - 1) / n in {m / n, m / n + 1}
  {
    assert (i + 1) * m == i * m + m;
    CeilGap(i * m, m, n);
  }

  /** The rolls that pick index `i` of `n` are exactly those from `FirstRoll(i, n)` up to `FirstRoll(i + 1, n)`. */
  lemma PickIndexRange(roll: nat, i: nat, n: nat)
    requires roll < ROLLS && n > 0
    ensures PickIndex(roll, n) == i <==> FirstRoll(i, n) <= roll < FirstRoll(i + 1, n)
  {
    ScaledRange(roll, i, n, ROLLS);
  }

  /**
   * Each index of `n` is picked by `ROLLS / n` rolls or by one more: the
   * pick is as even as `n` indices over 2^53 rolls allow.
   */
  lemma PickIndexCount(i: nat, n: nat)
    requires n > 0
    ensures FirstRoll(i, n) <= FirstRoll(i + 1, n)
    ensures FirstRoll(i + 1, n) - FirstRoll(i, n) in {ROLLS / n, ROLLS / n + 1}
  {
    ScaledGap(i, n, ROLLS);
  }

  /**
   * `getSpawnValue`: by brackets of `moveCount`, half open at 6, 14, 24,
   * 36 and 50, the smaller of two values with the bracket's chance and
   * the larger one otherwise.
   */
  function GetSpawnValue(moveCount: nat, percent: nat): (v: nat)
    ensures moveCount < 24 ==> v == 2 || v == 4
    ensures 24 <= moveCount < 50 ==> v == 4 || v == 8
    ensures 50 <= moveCount ==> v == 8 || v == 16
    ensures v == SmallValue(moveCount) <==> percent < SmallChance(moveCount)
    ensures v != SmallValue(moveCount) ==> v == 2 * SmallValue(moveCount)
  {
    if moveCount < 6 then (if percent < 85 then 2 else 4)
    else if moveCount < 14 then (if percent < 65 then 2 else 4)
    else if moveCount < 24 then (if percent < 40 then 2 else 4)
    else if moveCount < 36 then (if percent < 60 then 4 else 8)
    else if moveCount < 50 then (if percent < 50 then 4 else 8)
    else (if percent < 70 then 8 else 16)
  }

  /** Every value `getSpawnValue` can return is a power of two. */
  lemma SpawnValuePow2(moveCount: nat, percent: nat)
    ensures Pow2(GetSpawnValue(moveCount, percent))
  {
    assert Pow2(2);
    assert Pow2(4);
    assert Pow2(8);
    assert Pow2(16);
  }

  /** The smaller value of a bracket: 2 before move 24, 4 before move 50, 8 after. */
  function SmallValue(moveCount: nat): nat
  {
    if moveCount < 24 then 2 else if moveCount < 50 then 4 else 8
  }

  /** The chance of the smaller value, in percent, by bracket: 85, 65, 40, 60, 50, 70. */
  function SmallChance(moveCount: nat): nat
  {
    if moveCount < 6 then 85
    else if moveCount < 14 then 65
    else if moveCount < 24 then 40
    else if moveCount < 36 then 60
    else if moveCount < 50 then 50
    else 70
  }

  /** The number of percentiles below `n` that draw the smaller value. */
  function SmallDraws(moveCount: nat, n: nat): nat
  {
    if n == 0 then 0
    else SmallDraws(moveCount, n - 1) + (if GetSpawnValue(moveCount, n - 1) == SmallValue(moveCount) then 1 else 0)
  }

  /** Of the 100 percentiles, exactly the bracket's chance draw the smaller value. */
  lemma {:induction false} SmallDrawsCount(moveCount: nat, n: nat)
    requires n <= 100
    ensures SmallDraws(moveCount, n) == if n < SmallChance(moveCount) then n else SmallChance(moveCount)
  {
    if n > 0 {
      SmallDrawsCount(moveCount, n - 1);
    }
  }

  /** The tile `createTile` makes: the given id, the cell's coordinates, flagged new. */
  function NewTile(id: nat, r: int, c: int, value: nat): (t: Tile)
    ensures t.id == id && t.row == r && t.col == c && t.value == value
    ensures t.isNew && !t.merged && !t.removing && t.mergeTo.None?
  {
    Tile(id, r, c, value, true, false, false, None)
  }

  /**
   * A tile with a fresh id, stored in an empty cell, keeps the board's
   * invariants: placement, distinct ids, and ids up to the new counter.
   */
  lemma SpawnKeepsInvariants(g: Board, r: nat, c: nat, t: Tile, n: nat)
    requires Shape(g) && InBounds(r, c) && g[r][c].None?
    requires Placement(g) && DistinctIds(g) && IdsUpTo(g, n) && t.id == n + 1
    ensures Placement(SetCellOf(g, r, c, Some(t)))
    ensures DistinctIds(SetCellOf(g, r, c, Some(t)))
    ensures IdsUpTo(SetCellOf(g, r, c, Some(t)), n + 1)
  {
    var h: Board := SetCellOf(g, r, c, Some(t));
    SetCellPlacement(g, r, c, Some(t));
    forall r1: int, c1: int, r2: int, c2: int |
      InBounds(r1, c1) && InBounds(r2, c2) && h[r1][c1].Some? && h[r2][c2].Some? &&
      h[r1][c1].val.id == h[r2][c2].val.id
      ensures r1 == r2 && c1 == c2
    {
      if (r1, c1) != (r, c) && (r2, c2) != (r, c) {
        assert g[r1][c1] == h[r1][c1] && g[r2][c2] == h[r2][c2];
      }
    }
  }

  /** The empty cell `addRandomTile` picks: the drawn index into `emptyCells()`. */
  function SpawnCell(g: Board, roll: nat): (cell: (nat, nat))
    requires Shape(g) && roll < ROLLS && |EmptyCellsOf(g)| > 0
    ensures cell in EmptyCellsOf(g)
    ensures InBounds(cell.0, cell.1) && g[cell.0][cell.1].None?
  {
    var cell := EmptyCellsOf(g)[PickIndex(roll, |EmptyCellsOf(g)|)];
    EmptyCellsMembership(g, cell.0, cell.1);
    cell
  }

  /**
   * The board after `addRandomTile` with the draws `d`, at move
   * `moveCount`, when the id counter hands out `id`: unchanged when full,
   * otherwise with a new tile in the picked cell.
   */
  function AddedBoard(g: Board, d: Draw, moveCount: nat, id: nat): (h: Board)
    requires Shape(g) && DrawOk(d)
    ensures Shape(h)
  {
    if |EmptyCellsOf(g)| == 0 then g
    else
      var cell := SpawnCell(g, d.roll);
      SetCellOf(g, cell.0, cell.1, Some(NewTile(id, cell.0, cell.1, GetSpawnValue(moveCount, d.percent))))
  }

  /**
   * A spawn on a board with an empty cell fills exactly one empty cell
   * with a tile of the next id; on a full board it changes nothing.
   * Either way the board keeps its invariants, and the only id it can gain
   * is the new one.
   */
  lemma AddedBoardFacts(g: Board, d: Draw, moveCount: nat, n: nat)
    requires Shape(g) && DrawOk(d) && Placement(g) && DistinctIds(g) && IdsUpTo(g, n)
    ensures |EmptyCellsOf(g)| == 0 ==> AddedBoard(g, d, moveCount, n + 1) == g
    ensures |EmptyCellsOf(g)| > 0 ==> |EmptyCellsOf(AddedBoard(g, d, moveCount, n + 1))| == |EmptyCellsOf(g)| - 1
    ensures Placement(AddedBoard(g, d, moveCount, n + 1))
    ensures DistinctIds(AddedBoard(g, d, moveCount, n + 1))
    ensures IdsUpTo(AddedBoard(g, d, moveCount, n + 1), n + 1)
    ensures BoardIds(AddedBoard(g, d, moveCount, n + 1)) <= BoardIds(g) + {n + 1}
  {
    if |EmptyCellsOf(g)| > 0 {
      var cell := SpawnCell(g, d.roll);
      var t := NewTile(n + 1, cell.0, cell.1, GetSpawnValue(moveCount, d.percent));
      SetCellFillsEmpty(g, cell.0, cell.1, t);
      SpawnKeepsInvariants(g, cell.0, cell.1, t, n);
      SetCellIds(g, cell.0, cell.1, Some(t));
    } else {
      assert IdsUpTo(g, n + 1);
    }
  }

  /** A spawn keeps every tile's value a power of two: the new tile holds one and no other cell changes. */
  lemma SpawnKeepsPow2(g: Board, d: Draw, moveCount: nat, id: nat)
    requires Shape(g) && DrawOk(d) && Pow2Board(g)
    ensures Pow2Board(AddedBoard(g, d, moveCount, id))
  {
    SpawnValuePow2(moveCount, d.percent);
  }
}
