/**
 * What `processLine` promises about a whole line of SIZE cells: the
 * output keeps SIZE slots with the survivors first, value is conserved,
 * no tile is lost or duplicated, every absorbed tile points at its
 * absorber, and a line that comes out the same reference by reference is
 * returned untouched.
 */
module LineFacts {
  import opened Tiles
  import opened LineResolver

  lemma {:induction false} FilterAppend(a: Line, b: Line)
    ensures Filter(a + b) == Filter(a) + Filter(b)
  {
    if a != [] {
      assert (a + b)[0] == a[0] && (a + b)[1..] == a[1..] + b;
      FilterAppend(a[1..], b);
      if a[0].Some? {
        assert Filter(a + b) == [a[0].val] + (Filter(a[1..]) + Filter(b));
      }
    } else {
      assert a + b == b;
    }
  }

  lemma {:induction false} FilterNones(n: nat)
    ensures Filter(Blanks(n)) == []
  {
    if n > 0 {
      assert Blanks(n)[1..] == Blanks(n - 1);
      FilterNones(n - 1);
    }
  }

  /** Filtering a line of occupied cells gives back their tiles. */
  lemma {:induction false} FilterAllSome(line: Line)
    requires forall j :: 0 <= j < |line| ==> line[j].Some?
    ensures |Filter(line)| == |line|
    ensures forall j :: 0 <= j < |line| ==> Filter(line)[j] == line[j].val
  {
    if line != [] {
      FilterAllSome(line[1..]);
      var rest := Filter(line[1..]);
      assert Filter(line) == [line[0].val] + rest;
      forall j | 0 <= j < |line| ensures Filter(line)[j] == line[j].val {
        if j > 0 {
          assert line[1..][j - 1] == line[j];
        }
      }
    }
  }

  /** A line whose first `m` cells are occupied and whose others are empty filters to those `m` tiles. */
  lemma FilterPacked(line: Line, m: nat)
    requires m <= |line|
    requires forall j :: 0 <= j < |line| ==> (line[j].Some? <==> j < m)
    ensures |Filter(line)| == m
    ensures forall j :: 0 <= j < m ==> Filter(line)[j] == line[j].val
  {
    assert line == line[..m] + line[m..];
    FilterAppend(line[..m], line[m..]);
    FilterAllSome(line[..m]);
    assert line[m..] == Blanks(|line| - m);
    FilterNones(|line| - m);
  }

  /** A line with fewer tiles than cells has an empty cell. */
  lemma {:induction false} FilterShort(line: Line)
    requires |Filter(line)| == |line|
    ensures forall j :: 0 <= j < |line| ==> line[j].Some?
  {
    if line != [] {
      FilterShort(line[1..]);
      assert forall j :: 1 <= j < |line| ==> line[j] == line[1..][j - 1];
    }
  }

  lemma LineIdsPad(line: Line)
    ensures LineIds(Pad(line)) == LineIds(line)
  {
    var p := Pad(line);
    forall x | x in LineIds(p) ensures x in LineIds(line) {
      var i :| 0 <= i < |p| && p[i].Some? && p[i].val.id == x;
      assert i < |line| && p[i] == line[i];
    }
    forall x | x in LineIds(line) ensures x in LineIds(p) {
      var i :| 0 <= i < |line| && line[i].Some? && line[i].val.id == x;
      assert p[i] == line[i];
    }
  }

  /**
   * The output has SIZE slots: the survivors first, as many as the input
   * had tiles less the absorbed ones, then only empty cells. At most half
   * the tiles are absorbed.
   */
  lemma ResolvedShape(line: Line)
    requires |line| == SIZE
    ensures |Resolved(line).result| == SIZE
    ensures |Resolved(line).removed| <= |Filter(line)| - |Resolved(line).removed|
    ensures forall j :: 0 <= j < SIZE ==>
      (Resolved(line).result[j].Some? <==> j < |Filter(line)| - |Resolved(line).removed|)
  {
    ResolveSizes(Filter(line), 0, 0);
  }

  /**
   * Conservation: the survivors' values add up to the input's, the score
   * gained is twice the absorbed value, and the survivors number the input
   * tiles less the absorbed ones.
   */
  lemma ResolvedConserves(line: Line)
    ensures SumValues(Filter(Resolved(line).result)) == SumValues(Filter(line))
    ensures Resolved(line).gained == 2 * SumValues(Resolved(line).removed)
    ensures |Filter(Resolved(line).result)| == |Filter(line)| - |Resolved(line).removed|
  {
    var ts := Filter(line);
    var r := Resolve(ts, 0, 0);
    ResolveValues(ts, 0, 0);
    ResolveSizes(ts, 0, 0);
    assert ts[0..] == ts;
    PadFilter(r.result);
    FilterAllSome(r.result);
  }

  /**
   * On a line of powers of two, the output and the absorbed tiles hold
   * powers of two, and the line scores exactly when it merges: every
   * merge adds a positive value.
   */
  lemma ResolvedPow2(line: Line)
    requires Pow2Line(line)
    ensures Pow2Line(Resolved(line).result) && Pow2Tiles(Resolved(line).removed)
    ensures Resolved(line).gained > 0 <==> Resolved(line).removed != []
  {
    var ts := Filter(line);
    FilterPow2(line);
    ResolvePow2(ts, 0, 0);
    ResolvedConserves(line);
    SumValuesPositive(Resolved(line).removed);
  }

  lemma PadFilter(line: Line)
    ensures Filter(Pad(line)) == Filter(line)
  {
    if |line| < SIZE {
      FilterAppend(line, Blanks(SIZE - |line|));
      FilterNones(SIZE - |line|);
    }
  }

  /**
   * Identity: the survivors and the absorbed tiles are exactly the input's
   * tiles; with distinct input ids, none is duplicated and none is both.
   */
  lemma ResolvedIds(line: Line)
    ensures LineIds(Resolved(line).result) + TileIds(Resolved(line).removed) == LineIds(line)
    ensures DistinctLine(line) ==>
      DistinctLine(Resolved(line).result) && DistinctTiles(Resolved(line).removed) &&
      LineIds(Resolved(line).result) !! TileIds(Resolved(line).removed)
  {
    var ts := Filter(line);
    var r := Resolve(ts, 0, 0);
    FilterIds(line);
    ResolveIds(ts, 0, 0);
    assert ts[0..] == ts;
    LineIdsPad(r.result);
    var p := Pad(r.result);
    if DistinctLine(r.result) {
      forall i, j | 0 <= i < j < |p| && p[i].Some? && p[j].Some? ensures p[i].val.id != p[j].val.id {
        assert j < |r.result|;
      }
    }
  }

  /**
   * Each absorbed tile is flagged `removing`, and its `mergeTo` is a slot
   * of the output holding a tile flagged `merged` with twice its value;
   * distinct absorbed tiles name distinct, increasing slots. That slot
   * holds the absorber: the tile just before the absorbed one among the
   * line's tiles.
   */
  lemma ResolvedMergeTo(line: Line)
    requires |line| == SIZE
    ensures forall j :: 0 <= j < |Resolved(line).removed| ==> MergeTarget(Resolved(line), 0, j)
    ensures forall j, l :: 0 <= j < l < |Resolved(line).removed| ==> MergeOrdered(Resolved(line), j, l)
    ensures forall j :: 0 <= j < |Resolved(line).removed| ==> AbsorbedAfter(Filter(line), Resolved(line), 0, j)
  {
    var r := Resolve(Filter(line), 0, 0);
    ResolveMergeTo(Filter(line), 0, 0);
    ResolveSizes(Filter(line), 0, 0);
    forall j | 0 <= j < |r.removed| ensures MergeTarget(Resolved(line), 0, j) {
      assert MergeTarget(r, 0, j);
      assert Resolved(line).result[..|r.result|] == r.result;
    }
    forall j, l | 0 <= j < l < |Resolved(line).removed| ensures MergeOrdered(Resolved(line), j, l) {
      assert Resolved(line).removed == r.removed;
      assert MergeOrdered(r, j, l);
    }
    ResolveAbsorber(Filter(line), 0, 0);
    forall j | 0 <= j < |r.removed| ensures AbsorbedAfter(Filter(line), Resolved(line), 0, j) {
      assert AbsorbedAfter(Filter(line), r, 0, j);
      assert Resolved(line).result[..|r.result|] == r.result;
    }
  }

  /**
   * Order: putting every absorbed tile back after its absorber, with the
   * absorber's old value, gives the input's tiles (ids and values) in
   * their original order.
   */
  lemma ResolvedUnmerge(line: Line)
    ensures Unmerge(Filter(Resolved(line).result), Resolved(line).removed, 0) == Pairs(Filter(line))
  {
    var ts := Filter(line);
    ResolveUnmerge(ts, 0, 0);
    assert ts[0..] == ts;
    PadFilter(Resolve(ts, 0, 0).result);
  }

  /**
   * A line that comes out holding the same tile reference in every cell
   * is returned exactly as it was, with nothing gained and nothing
   * absorbed, which is why a move that changes no reference changes
   * nothing at all.
   */
  lemma ResolvedFixpoint(line: Line)
    requires |line| == SIZE
    requires forall j :: 0 <= j < SIZE ==> IdOf(Resolved(line).result[j]) == IdOf(line[j])
    ensures Resolved(line) == Outcome(line, 0, [])
  {
    var ts := Filter(line);
    var r := Resolve(ts, 0, 0);
    ResolvedShape(line);
    ResolveSizes(ts, 0, 0);
    var m := |r.result|;
    forall j | 0 <= j < SIZE ensures line[j].Some? <==> j < m {
      assert IdOf(Resolved(line).result[j]) == IdOf(line[j]);
    }
    FilterPacked(line, m);
    assert r.removed == [];
    forall j | 0 <= j < SIZE ensures Resolved(line).result[j] == line[j] {
      if j < m {
        assert Resolved(line).result[j] == r.result[j] == Some(ts[j]);
      }
    }
  }

  /**
   * When the output's last slot is occupied, the line was full and had no
   * equal neighbours: it comes back unchanged. So a line that changes
   * always ends with an empty cell.
   */
  lemma ResolvedFull(line: Line)
    requires |line| == SIZE
    requires Resolved(line).result[SIZE - 1].Some?
    ensures Resolved(line) == Outcome(line, 0, [])
  {
    var ts := Filter(line);
    var r := Resolve(ts, 0, 0);
    ResolvedShape(line);
    ResolveSizes(ts, 0, 0);
    assert |ts| == SIZE;
    FilterShort(line);
    FilterAllSome(line);
    forall j | 0 <= j < SIZE ensures Resolved(line).result[j] == line[j] {
      assert Resolved(line).result[j] == r.result[j] == Some(ts[j]);
    }
  }

  /** A tile as the examples below use it: fresh coordinates and flags. */
  function T(id: nat, value: nat): Option<Tile>
  {
    Some(Tile(id, 0, 0, value, false, false, false, None))
  }

  /** The values shown by a line, `None` for an empty cell. */
  function Values(line: Line): seq<Option<nat>>
  {
    seq(|line|, j requires 0 <= j < |line| => if line[j].Some? then Some(line[j].val.value) else None)
  }

  /** 2 2 2 2 becomes 4 4 _ _ and gains 8: the middle pair does not merge. */
  lemma ExampleFourTwos()
    ensures Values(Resolved([T(1, 2), T(2, 2), T(3, 2), T(4, 2)]).result) == [Some(4), Some(4), None, None]
    ensures Resolved([T(1, 2), T(2, 2), T(3, 2), T(4, 2)]).gained == 8
  {
    var line := [T(1, 2), T(2, 2), T(3, 2), T(4, 2)];
    var ts := Filter(line);
    assert ts == [line[0].val, line[1].val, line[2].val, line[3].val];
    assert Resolve(ts, 4, 2) == Outcome([], 0, []);
    assert Resolve(ts, 2, 1).result == [Some(Doubled(ts[2]))];
  }

  /** 2 2 4 becomes 4 4 _ _ and gains 4: the new 4 does not merge again. */
  lemma ExampleTwoTwoFour()
    ensures Values(Resolved([T(1, 2), T(2, 2), T(3, 4), None]).result) == [Some(4), Some(4), None, None]
    ensures Resolved([T(1, 2), T(2, 2), T(3, 4), None]).gained == 4
  {
    var line := [T(1, 2), T(2, 2), T(3, 4), None];
    var ts := Filter(line);
    assert ts == [line[0].val, line[1].val, line[2].val];
    assert Resolve(ts, 3, 2) == Outcome([], 0, []);
    assert Resolve(ts, 2, 1).result == [Some(ts[2])];
  }

  /** 2 2 4 4 becomes 4 8 _ _ and gains 12. */
  lemma ExampleTwoTwoFourFour()
    ensures Values(Resolved([T(1, 2), T(2, 2), T(3, 4), T(4, 4)]).result) == [Some(4), Some(8), None, None]
    ensures Resolved([T(1, 2), T(2, 2), T(3, 4), T(4, 4)]).gained == 12
  {
    var line := [T(1, 2), T(2, 2), T(3, 4), T(4, 4)];
    var ts := Filter(line);
    assert ts == [line[0].val, line[1].val, line[2].val, line[3].val];
    assert Resolve(ts, 4, 2) == Outcome([], 0, []);
    assert Resolve(ts, 2, 1).result == [Some(Doubled(ts[2]))];
  }
}
