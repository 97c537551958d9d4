/**
 * Tiles of the merge puzzle: the value each board cell may hold.
 *
 * A tile in the game is a mutable object; the board holds references to
 * those objects. Here a tile is a datatype value whose `id` is its
 * identity, and comparing two references (`===`) is comparing ids. The
 * board invariant (Grid.DistinctIds) keeps every id in at most one cell,
 * which is what makes the two views agree.
 */
module Tiles {

  /** The board is SIZE x SIZE. */
  const SIZE: nat := 4

  datatype Option<T> = None | Some(val: T)

  /**
   * A tile: its identity, its current coordinates, its value and the
   * transient flags used by the renderer (`isNew`, `merged`, `removing`,
   * `mergeTo`).
   */
  datatype Tile = Tile(
    id: nat,
    row: int,
    col: int,
    value: nat,
    isNew: bool,
    merged: bool,
    removing: bool,
    mergeTo: Option<nat>)

  /** One row or column, or a cell's occupant list in processing order. */
  type Line = seq<Option<Tile>>

  /** The identity of a cell's occupant, `None` for an empty cell. */
  function IdOf(t: Option<Tile>): Option<nat>
  {
    if t.Some? then Some(t.val.id) else None
  }

  /** Reference equality of two occupants: both present and the same object. */
  predicate SameRef(a: Option<Tile>, b: Option<Tile>)
  {
    a.Some? && b.Some? && a.val.id == b.val.id
  }

  /** What `setCell` does to the tile it stores: its coordinates become the cell's. */
  function Placed(t: Option<Tile>, row: int, col: int): (p: Option<Tile>)
    ensures IdOf(p) == IdOf(t)
    ensures p.Some? ==> p.val.row == row && p.val.col == col
    ensures p.Some? ==> p.val == t.val.(row := row, col := col)
  {
    if t.Some? then Some(t.val.(row := row, col := col)) else None
  }

  /** The ids of a sequence of tiles, as a set. */
  function TileIds(ts: seq<Tile>): set<nat>
  {
    set i | 0 <= i < |ts| :: ts[i].id
  }

  /** The ids of the occupied cells of a line, as a set. */
  function LineIds(line: Line): set<nat>
  {
    set i | 0 <= i < |line| && line[i].Some? :: line[i].val.id
  }

  /** No two tiles of `ts` share an id. */
  predicate DistinctTiles(ts: seq<Tile>)
  {
    forall i, j :: 0 <= i < j < |ts| ==> ts[i].id != ts[j].id
  }

  /** No two occupied cells of `line` share an id. */
  predicate DistinctLine(line: Line)
  {
    forall i, j :: 0 <= i < j < |line| && line[i].Some? && line[j].Some? ==>
      line[i].val.id != line[j].val.id
  }

  /** The sum of the values of a sequence of tiles. */
  function SumValues(ts: seq<Tile>): nat
  {
    if ts == [] then 0 else ts[0].value + SumValues(ts[1..])
  }

  /** A power of two no smaller than 2: the values a tile can hold. */
  predicate Pow2(v: nat)
    decreases v
  {
    v == 2 || (v > 2 && v % 2 == 0 && Pow2(v / 2))
  }

  /** 2 to the power `n`. */
  function Exp2(n: nat): (p: nat)
    ensures p >= 1
  {
    if n == 0 then 1 else 2 * Exp2(n - 1)
  }

  /** Every positive power of two satisfies `Pow2`. */
  lemma {:induction false} Pow2OfExp(n: nat)
    requires n >= 1
    ensures Pow2(Exp2(n))
  {
    if n > 1 {
      Pow2OfExp(n - 1);
      assert Exp2(n) / 2 == Exp2(n - 1);
    }
  }

  /** Every value satisfying `Pow2` is a positive power of two. */
  lemma {:induction false} Pow2Exponent(v: nat) returns (n: nat)
    requires Pow2(v)
    ensures n >= 1 && v == Exp2(n)
    decreases v
  {
    if v == 2 {
      n := 1;
    } else {
      var m := Pow2Exponent(v / 2);
      n := m + 1;
    }
  }

  /** Doubling a power of two gives a power of two, and every power of two is at least 2. */
  lemma Pow2Double(v: nat)
    requires Pow2(v)
    ensures v >= 2 && Pow2(2 * v)
  {
    assert (2 * v) / 2 == v;
  }

  /** Every tile of the line holds a power of two. */
  predicate Pow2Line(line: Line)
  {
    forall i :: 0 <= i < |line| && line[i].Some? ==> Pow2(line[i].val.value)
  }

  /** Every tile of the sequence holds a power of two. */
  predicate Pow2Tiles(ts: seq<Tile>)
  {
    forall i :: 0 <= i < |ts| ==> Pow2(ts[i].value)
  }

  /** Tiles holding powers of two add up to a positive value exactly when there is one. */
  lemma SumValuesPositive(ts: seq<Tile>)
    requires Pow2Tiles(ts)
    ensures SumValues(ts) > 0 <==> ts != []
  {
    if ts != [] {
      Pow2Double(ts[0].value);
    }
  }
}
