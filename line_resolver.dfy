/**
 * The line resolver (`processLine`): compacts one row or column towards
 * its start and merges neighbouring tiles of equal value, each tile taking
 * part in at most one merge.
 *
 * `Resolve` is the specification of the scan, by recursion on the
 * remaining tiles; `ProcessLine` is the scan itself, an index loop with the
 * extra step past an absorbed tile, proved to compute `Resolved`.
 */
module LineResolver {
  import opened Tiles

  /** The occupied cells of a line, in order (`line.filter(Boolean)`). */
  function Filter(line: Line): (ts: seq<Tile>)
    ensures |ts| <= |line|
  {
    if line == [] then []
    else if line[0].Some? then [line[0].val] + Filter(line[1..])
    else Filter(line[1..])
  }

  /** Filtering keeps exactly the occupants, and keeps them distinct. */
  lemma {:induction false} FilterIds(line: Line)
    ensures TileIds(Filter(line)) == LineIds(line)
    ensures DistinctLine(line) ==> DistinctTiles(Filter(line))
  {
    if line != [] {
      var rest := Filter(line[1..]);
      FilterIds(line[1..]);
      LineIdsCons(line);
      if line[0].Some? {
        var ts := [line[0].val] + rest;
        TileIdsCons(ts);
        assert ts[1..] == rest;
        if DistinctLine(line) {
          DistinctLineHead(line);
          DistinctLineTail(line);
          DistinctCons(ts);
        }
      } else if DistinctLine(line) {
        DistinctLineTail(line);
      }
    }
  }

  lemma LineIdsCons(line: Line)
    requires line != []
    ensures LineIds(line) == (if line[0].Some? then {line[0].val.id} else {}) + LineIds(line[1..])
  {
    var tail := line[1..];
    forall x | x in LineIds(line)
      ensures x in (if line[0].Some? then {line[0].val.id} else {}) + LineIds(tail)
    {
      var i :| 0 <= i < |line| && line[i].Some? && line[i].val.id == x;
      if i > 0 { assert tail[i - 1] == line[i]; }
    }
    forall x | x in LineIds(tail) ensures x in LineIds(line) {
      var i :| 0 <= i < |tail| && tail[i].Some? && tail[i].val.id == x;
      assert line[i + 1] == tail[i];
    }
  }

  lemma DistinctLineTail(line: Line)
    requires line != [] && DistinctLine(line)
    ensures DistinctLine(line[1..])
  {
    var tail := line[1..];
    forall i, j | 0 <= i < j < |tail| && tail[i].Some? && tail[j].Some?
      ensures tail[i].val.id != tail[j].val.id
    {
      assert tail[i] == line[i + 1] && tail[j] == line[j + 1];
    }
  }

  lemma DistinctLineHead(line: Line)
    requires line != [] && DistinctLine(line) && line[0].Some?
    ensures line[0].val.id !in LineIds(line[1..])
  {
    var tail := line[1..];
    forall i | 0 <= i < |tail| && tail[i].Some? ensures tail[i].val.id != line[0].val.id {
      assert tail[i] == line[i + 1];
    }
  }

  lemma TileIdsCons(ts: seq<Tile>)
    requires ts != []
    ensures TileIds(ts) == {ts[0].id} + TileIds(ts[1..])
  {
    var tail := ts[1..];
    forall x | x in TileIds(ts) ensures x in {ts[0].id} + TileIds(tail) {
      var i :| 0 <= i < |ts| && ts[i].id == x;
      if i > 0 { assert tail[i - 1] == ts[i]; }
    }
    forall x | x in TileIds(tail) ensures x in TileIds(ts) {
      var i :| 0 <= i < |tail| && tail[i].id == x;
      assert ts[i + 1] == tail[i];
    }
  }


  /**
   * What `processLine` returns: `result`, `gained` and `removed`. The scan
   * alone produces the same three parts before padding, with a `result`
   * holding only occupied cells.
   */
  datatype Outcome = Outcome(result: Line, gained: nat, removed: seq<Tile>)

  /**
   * The scan from index `i` of the filtered tiles `ts`, where `k` tiles
   * have already been put in the output. When the tiles at `i` and `i + 1`
   * have equal value, the first is doubled and flagged `merged`, the second
   * is flagged `removing` with `mergeTo` the first's output index, and the
   * scan goes on after both; otherwise the tile at `i` is kept as it is.
   */
  function Resolve(ts: seq<Tile>, i: nat, k: nat): Outcome
    decreases |ts| - i
  {
    if i >= |ts| then Outcome([], 0, [])
    else if i + 1 < |ts| && ts[i].value == ts[i + 1].value then
      var cur := Doubled(ts[i]);
      var rest := Resolve(ts, i + 2, k + 1);
      Outcome([Some(cur)] + rest.result, cur.value + rest.gained, [Absorbed(ts[i + 1], k)] + rest.removed)
    else
      var rest := Resolve(ts, i + 1, k + 1);
      Outcome([Some(ts[i])] + rest.result, rest.gained, rest.removed)
  }

  /** The surviving tile of a merge: twice the value, flagged `merged`. */
  function Doubled(t: Tile): (d: Tile)
    ensures d.id == t.id && d.value == 2 * t.value && d.merged
    ensures d.row == t.row && d.col == t.col && d.isNew == t.isNew && d.removing == t.removing && d.mergeTo == t.mergeTo
  {
    t.(value := t.value * 2, merged := true)
  }

  /** The absorbed tile of a merge: flagged `removing`, pointing at output index `k`. */
  function Absorbed(t: Tile, k: nat): (a: Tile)
    ensures a.id == t.id && a.value == t.value && a.removing && a.mergeTo == Some(k)
    ensures a.row == t.row && a.col == t.col && a.isNew == t.isNew && a.merged == t.merged
  {
    t.(removing := true, mergeTo := Some(k))
  }

  /** The scan results `a` then `b`, one after the other. */
  function Then(a: Outcome, b: Outcome): Outcome
  {
    Outcome(a.result + b.result, a.gained + b.gained, a.removed + b.removed)
  }

  /** One merging step of the scan, seen from the part `done` already produced. */
  lemma ResolveMergeStep(ts: seq<Tile>, i: nat, done: Outcome)
    requires i + 1 < |ts| && ts[i].value == ts[i + 1].value
    ensures Then(done, Resolve(ts, i, |done.result|)) ==
      Then(Outcome(done.result + [Some(Doubled(ts[i]))], done.gained + 2 * ts[i].value,
                      done.removed + [Absorbed(ts[i + 1], |done.result|)]),
           Resolve(ts, i + 2, |done.result| + 1))
  {
  }

  /** One keeping step of the scan, seen from the part `done` already produced. */
  lemma ResolveKeepStep(ts: seq<Tile>, i: nat, done: Outcome)
    requires i < |ts| && !(i + 1 < |ts| && ts[i].value == ts[i + 1].value)
    ensures Then(done, Resolve(ts, i, |done.result|)) ==
      Then(Outcome(done.result + [Some(ts[i])], done.gained, done.removed),
           Resolve(ts, i + 1, |done.result| + 1))
  {
  }

  /** The output line: the scan's output, then empty cells up to SIZE. */
  function Pad(line: Line): (padded: Line)
    ensures |padded| == if |line| < SIZE then SIZE else |line|
    ensures padded[..|line|] == line
    ensures forall i :: |line| <= i < |padded| ==> padded[i].None?
  {
    if |line| < SIZE then line + Blanks(SIZE - |line|) else line
  }

  /** `n` empty cells. */
  function Blanks(n: nat): (b: Line)
    ensures |b| == n && forall i :: 0 <= i < n ==> b[i].None?
  {
    seq(n, _ => None)
  }

  /** The outcome of resolving a raw line, empty cells included. */
  function Resolved(line: Line): Outcome
  {
    var r := Resolve(Filter(line), 0, 0);
    Outcome(Pad(r.result), r.gained, r.removed)
  }

  /**
   * `processLine`: filter out the empty cells, scan the tiles once
   * (skipping the partner of each merge), then pad with empty cells.
   */
  method ProcessLine(line: Line) returns (result: Line, gained: nat, removed: seq<Tile>)
    ensures Outcome(result, gained, removed) == Resolved(line)
  {
    var filtered := Filter(line);
    result, gained, removed := Scan(filtered);
    ghost var scanned := result;
    while |result| < SIZE
      invariant |scanned| <= |result| <= |Pad(scanned)|
      invariant result == Pad(scanned)[..|result|]
    {
      result := result + [None];
    }
  }

  /** The scanning loop of `processLine`, over the already filtered tiles. */
  method Scan(filtered: seq<Tile>) returns (result: Line, gained: nat, removed: seq<Tile>)
    ensures Outcome(result, gained, removed) == Resolve(filtered, 0, 0)
  {
    ghost var whole := Resolve(filtered, 0, 0);
    result, gained, removed := [], 0, [];
    var i := 0;
    assert [] + whole.result == whole.result;
    assert [] + whole.removed == whole.removed;
    while i < |filtered|
      invariant 0 <= i <= |filtered|
      invariant whole == Then(Outcome(result, gained, removed), Resolve(filtered, i, |result|))
    {
      ghost var done := Outcome(result, gained, removed);
      var current := filtered[i];
      if i + 1 < |filtered| && current.value == filtered[i + 1].value {
        var next := filtered[i + 1];
        current := Doubled(current);
        next := Absorbed(next, |result|);
        gained := gained + current.value;
        removed := removed + [next];
        result := result + [Some(current)];
        i := i + 1;
        ResolveMergeStep(filtered, i - 1, done);
      } else {
        result := result + [Some(current)];
        ResolveKeepStep(filtered, i, done);
      }
      i := i + 1;
    }
    assert result + [] == result;
    assert removed + [] == removed;
  }

  /** The (id, value) pairs of a sequence of tiles, in order. */
  function Pairs(ts: seq<Tile>): seq<(nat, nat)>
  {
    if ts == [] then [] else [(ts[0].id, ts[0].value)] + Pairs(ts[1..])
  }

  /**
   * Undoes a scan: each survivor at output index `k + i` is put back with
   * the value it had before, followed by the tile that names it in
   * `mergeTo`, if any.
   */
  function Unmerge(result: seq<Tile>, removed: seq<Tile>, k: nat): seq<(nat, nat)>
    decreases |result|
  {
    if result == [] then []
    else if removed != [] && removed[0].mergeTo == Some(k) then
      [(result[0].id, removed[0].value), (removed[0].id, removed[0].value)]
        + Unmerge(result[1..], removed[1..], k + 1)
    else
      [(result[0].id, result[0].value)] + Unmerge(result[1..], removed, k + 1)
  }

  /**
   * Counting: every tile either survives or is absorbed, survivors fill the
   * output without gaps, and a scan with no merge returns its input
   * unchanged and gains nothing.
   */
  lemma {:induction false} ResolveSizes(ts: seq<Tile>, i: nat, k: nat)
    requires i <= |ts|
    ensures |Resolve(ts, i, k).result| + |Resolve(ts, i, k).removed| == |ts| - i
    ensures |Resolve(ts, i, k).removed| <= |Resolve(ts, i, k).result|
    ensures forall j :: 0 <= j < |Resolve(ts, i, k).result| ==> Resolve(ts, i, k).result[j].Some?
    ensures Resolve(ts, i, k).removed == [] ==>
      Resolve(ts, i, k).gained == 0 &&
      forall j :: 0 <= j < |Resolve(ts, i, k).result| ==> Resolve(ts, i, k).result[j] == Some(ts[i + j])
    decreases |ts| - i
  {
    var r := Resolve(ts, i, k);
    if i == |ts| {
    } else if i + 1 < |ts| && ts[i].value == ts[i + 1].value {
      ResolveSizes(ts, i + 2, k + 1);
    } else {
      var rest := Resolve(ts, i + 1, k + 1);
      ResolveSizes(ts, i + 1, k + 1);
      forall j | 1 <= j < |r.result| ensures r.result[j] == rest.result[j - 1] { }
    }
  }

  /**
   * Every absorbed tile is flagged `removing` and names in `mergeTo` the
   * output index of the tile that absorbed it; that tile is flagged
   * `merged` and holds twice the absorbed value. The `mergeTo` indices
   * strictly increase, so no output tile absorbs two tiles.
   */
  lemma {:induction false} ResolveMergeTo(ts: seq<Tile>, i: nat, k: nat)
    requires i <= |ts|
    ensures forall j :: 0 <= j < |Resolve(ts, i, k).removed| ==> MergeTarget(Resolve(ts, i, k), k, j)
    ensures forall j, l :: 0 <= j < l < |Resolve(ts, i, k).removed| ==> MergeOrdered(Resolve(ts, i, k), j, l)
    decreases |ts| - i
  {
    var r := Resolve(ts, i, k);
    if i == |ts| {
    } else if i + 1 < |ts| && ts[i].value == ts[i + 1].value {
      var rest := Resolve(ts, i + 2, k + 1);
      ResolveMergeTo(ts, i + 2, k + 1);
      forall j | 0 <= j < |r.removed| ensures MergeTarget(r, k, j) {
        if j > 0 {
          assert r.removed[j] == rest.removed[j - 1];
          assert MergeTarget(rest, k + 1, j - 1);
          var m := rest.removed[j - 1].mergeTo.val;
          assert r.result[m - k] == rest.result[m - (k + 1)];
        }
      }
      forall j, l | 0 <= j < l < |r.removed| ensures MergeOrdered(r, j, l) {
        assert r.removed[l] == rest.removed[l - 1];
        assert MergeTarget(rest, k + 1, l - 1);
        if j > 0 {
          assert r.removed[j] == rest.removed[j - 1];
          assert MergeOrdered(rest, j - 1, l - 1);
        }
      }
    } else {
      var rest := Resolve(ts, i + 1, k + 1);
      ResolveMergeTo(ts, i + 1, k + 1);
      forall j | 0 <= j < |r.removed| ensures MergeTarget(r, k, j) {
        assert MergeTarget(rest, k + 1, j);
        var m := rest.removed[j].mergeTo.val;
        assert r.result[m - k] == rest.result[m - (k + 1)];
      }
      forall j, l | 0 <= j < l < |r.removed| ensures MergeOrdered(r, j, l) {
        assert r.removed[j] == rest.removed[j] && r.removed[l] == rest.removed[l];
        assert MergeOrdered(rest, j, l);
      }
    }
  }

  /** The absorbed tiles `j` and `l` (in that order) name increasing output indices. */
  predicate MergeOrdered(r: Outcome, j: int, l: int)
    requires 0 <= j < l < |r.removed|
  {
    r.removed[j].mergeTo.Some? && r.removed[l].mergeTo.Some? &&
    r.removed[j].mergeTo.val < r.removed[l].mergeTo.val
  }

  /**
   * The absorbed tile `r.removed[j]` is flagged `removing` and names in
   * `mergeTo` an output index (counted from `k`) holding a tile flagged
   * `merged` with twice its value.
   */
  predicate MergeTarget(r: Outcome, k: nat, j: int)
    requires 0 <= j < |r.removed|
  {
    var t := r.removed[j];
    t.removing && t.mergeTo.Some? &&
    k <= t.mergeTo.val < k + |r.result| &&
    r.result[t.mergeTo.val - k].Some? &&
    r.result[t.mergeTo.val - k].val.merged &&
    r.result[t.mergeTo.val - k].val.value == 2 * t.value
  }

  /**
   * The absorbed tile `r.removed[j]` stood, among the scanned tiles `ts`,
   * right after the tile that now fills its `mergeTo` output index
   * (counted from `k`): that index holds its absorber.
   */
  ghost predicate AbsorbedAfter(ts: seq<Tile>, r: Outcome, k: nat, j: int)
    requires 0 <= j < |r.removed|
  {
    var t := r.removed[j];
    t.mergeTo.Some? && k <= t.mergeTo.val < k + |r.result| && r.result[t.mergeTo.val - k].Some? &&
    exists p :: 0 <= p < |ts| - 1 && ts[p + 1].id == t.id && ts[p].id == r.result[t.mergeTo.val - k].val.id
  }

  /** Each absorbed tile's `mergeTo` index holds the tile scanned right before it: its absorber. */
  lemma {:induction false} ResolveAbsorber(ts: seq<Tile>, i: nat, k: nat)
    requires i <= |ts|
    ensures forall j :: 0 <= j < |Resolve(ts, i, k).removed| ==> AbsorbedAfter(ts, Resolve(ts, i, k), k, j)
    decreases |ts| - i
  {
    var r := Resolve(ts, i, k);
    if i == |ts| {
    } else if i + 1 < |ts| && ts[i].value == ts[i + 1].value {
      var rest := Resolve(ts, i + 2, k + 1);
      ResolveAbsorber(ts, i + 2, k + 1);
      forall j | 0 <= j < |r.removed| ensures AbsorbedAfter(ts, r, k, j) {
        if j == 0 {
          assert r.removed[0] == Absorbed(ts[i + 1], k);
          assert r.result[0] == Some(Doubled(ts[i]));
          assert ts[i + 1].id == r.removed[0].id && ts[i].id == r.result[0].val.id;
        } else {
          assert r.removed[j] == rest.removed[j - 1];
          assert AbsorbedAfter(ts, rest, k + 1, j - 1);
          var m := rest.removed[j - 1].mergeTo.val;
          assert r.result[m - k] == rest.result[m - (k + 1)];
        }
      }
    } else {
      var rest := Resolve(ts, i + 1, k + 1);
      ResolveAbsorber(ts, i + 1, k + 1);
      forall j | 0 <= j < |r.removed| ensures AbsorbedAfter(ts, r, k, j) {
        assert r.removed[j] == rest.removed[j];
        assert AbsorbedAfter(ts, rest, k + 1, j);
        var m := rest.removed[j].mergeTo.val;
        assert r.result[m - k] == rest.result[m - (k + 1)];
      }
    }
  }

  /**
   * Round trip: undoing the scan gives back the input's ids and values in
   * their original order. So survivors keep their relative order and each
   * absorbed tile stood right after its absorber, with the same value.
   */
  lemma {:induction false} ResolveUnmerge(ts: seq<Tile>, i: nat, k: nat)
    requires i <= |ts|
    ensures Unmerge(Filter(Resolve(ts, i, k).result), Resolve(ts, i, k).removed, k) == Pairs(ts[i..])
    decreases |ts| - i
  {
    var r := Resolve(ts, i, k);
    if i == |ts| {
    } else if i + 1 < |ts| && ts[i].value == ts[i + 1].value {
      var rest := Resolve(ts, i + 2, k + 1);
      ResolveUnmerge(ts, i + 2, k + 1);
      assert Filter(r.result) == [r.result[0].val] + Filter(rest.result) by {
        assert r.result[1..] == rest.result;
      }
      assert r.removed[1..] == rest.removed;
      assert ts[i..][1..] == ts[i + 1..] && ts[i + 1..][1..] == ts[i + 2..];
    } else {
      var rest := Resolve(ts, i + 1, k + 1);
      ResolveUnmerge(ts, i + 1, k + 1);
      ResolveMergeTo(ts, i + 1, k + 1);
      assert Filter(r.result) == [ts[i]] + Filter(rest.result) by {
        assert r.result[1..] == rest.result;
      }
      assert ts[i..][1..] == ts[i + 1..];
      if rest.removed != [] {
        assert MergeTarget(rest, k + 1, 0);
      }
    }
  }

  /** Value is conserved by the survivors; the score gained is twice the absorbed value. */
  lemma {:induction false} ResolveValues(ts: seq<Tile>, i: nat, k: nat)
    requires i <= |ts|
    ensures SumValues(Filter(Resolve(ts, i, k).result)) == SumValues(ts[i..])
    ensures Resolve(ts, i, k).gained == 2 * SumValues(Resolve(ts, i, k).removed)
    decreases |ts| - i
  {
    var r := Resolve(ts, i, k);
    if i == |ts| {
    } else if i + 1 < |ts| && ts[i].value == ts[i + 1].value {
      var rest := Resolve(ts, i + 2, k + 1);
      ResolveValues(ts, i + 2, k + 1);
      assert r.result[1..] == rest.result;
      assert r.removed[1..] == rest.removed;
      assert ts[i..][1..] == ts[i + 1..] && ts[i + 1..][1..] == ts[i + 2..];
    } else {
      ResolveValues(ts, i + 1, k + 1);
      assert r.result[1..] == Resolve(ts, i + 1, k + 1).result;
      assert ts[i..][1..] == ts[i + 1..];
    }
  }

  /** Powers of two stay powers of two: a survivor is kept or doubles an equal value, an absorbed tile keeps its value. */
  lemma {:induction false} ResolvePow2(ts: seq<Tile>, i: nat, k: nat)
    requires i <= |ts| && Pow2Tiles(ts)
    ensures Pow2Line(Resolve(ts, i, k).result) && Pow2Tiles(Resolve(ts, i, k).removed)
    decreases |ts| - i
  {
    var r := Resolve(ts, i, k);
    if i == |ts| {
    } else if i + 1 < |ts| && ts[i].value == ts[i + 1].value {
      var rest := Resolve(ts, i + 2, k + 1);
      ResolvePow2(ts, i + 2, k + 1);
      Pow2Double(ts[i].value);
      assert r.result == [Some(Doubled(ts[i]))] + rest.result;
      assert r.removed == [Absorbed(ts[i + 1], k)] + rest.removed;
    } else {
      var rest := Resolve(ts, i + 1, k + 1);
      ResolvePow2(ts, i + 1, k + 1);
      assert r.result == [Some(ts[i])] + rest.result;
    }
  }

  /** The filtered tiles of a line of powers of two hold powers of two. */
  lemma {:induction false} FilterPow2(line: Line)
    requires Pow2Line(line)
    ensures Pow2Tiles(Filter(line))
  {
    if line != [] {
      assert Pow2Line(line[1..]) by {
        forall i | 0 <= i < |line[1..]| && line[1..][i].Some? ensures Pow2(line[1..][i].val.value) {
          assert line[1..][i] == line[i + 1];
        }
      }
      FilterPow2(line[1..]);
    }
  }

  /**
   * Identity: the survivors and the absorbed tiles are exactly the input
   * tiles, and with distinct input ids they are distinct and disjoint.
   */
  lemma {:induction false} ResolveIds(ts: seq<Tile>, i: nat, k: nat)
    requires i <= |ts|
    ensures LineIds(Resolve(ts, i, k).result) + TileIds(Resolve(ts, i, k).removed) == TileIds(ts[i..])
    ensures DistinctTiles(ts[i..]) ==>
      DistinctLine(Resolve(ts, i, k).result) && DistinctTiles(Resolve(ts, i, k).removed) &&
      LineIds(Resolve(ts, i, k).result) !! TileIds(Resolve(ts, i, k).removed)
    decreases |ts| - i
  {
    var r := Resolve(ts, i, k);
    if i == |ts| {
    } else if i + 1 < |ts| && ts[i].value == ts[i + 1].value {
      var rest := Resolve(ts, i + 2, k + 1);
      ResolveIds(ts, i + 2, k + 1);
      assert ts[i..][1..] == ts[i + 1..] && ts[i + 1..][1..] == ts[i + 2..];
      TileIdsCons(ts[i..]);
      TileIdsCons(ts[i + 1..]);
      LineIdsCons(r.result);
      TileIdsCons(r.removed);
      assert r.result[1..] == rest.result;
      assert r.removed[1..] == rest.removed;
      if DistinctTiles(ts[i..]) {
        DistinctTail(ts[i..]);
        DistinctTail(ts[i + 1..]);
        DistinctHead(ts[i..]);
        DistinctHead(ts[i + 1..]);
        DistinctLineCons(r.result);
        DistinctCons(r.removed);
      }
    } else {
      var rest := Resolve(ts, i + 1, k + 1);
      ResolveIds(ts, i + 1, k + 1);
      assert ts[i..][1..] == ts[i + 1..];
      TileIdsCons(ts[i..]);
      LineIdsCons(r.result);
      assert r.result[1..] == rest.result;
      if DistinctTiles(ts[i..]) {
        DistinctTail(ts[i..]);
        DistinctHead(ts[i..]);
        DistinctLineCons(r.result);
      }
    }
  }


  lemma DistinctTail(ts: seq<Tile>)
    requires ts != [] && DistinctTiles(ts)
    ensures DistinctTiles(ts[1..])
  {
    var tail := ts[1..];
    forall i, j | 0 <= i < j < |tail| ensures tail[i].id != tail[j].id {
      assert tail[i] == ts[i + 1] && tail[j] == ts[j + 1];
    }
  }

  lemma DistinctHead(ts: seq<Tile>)
    requires ts != [] && DistinctTiles(ts)
    ensures ts[0].id !in TileIds(ts[1..])
  {
    var tail := ts[1..];
    forall i | 0 <= i < |tail| ensures tail[i].id != ts[0].id {
      assert ts[i + 1] == tail[i];
    }
  }

  lemma DistinctCons(ts: seq<Tile>)
    requires ts != [] && DistinctTiles(ts[1..]) && ts[0].id !in TileIds(ts[1..])
    ensures DistinctTiles(ts)
  {
    var tail := ts[1..];
    forall i, j | 0 <= i < j < |ts| ensures ts[i].id != ts[j].id {
      assert ts[j] == tail[j - 1];
      if i > 0 { assert ts[i] == tail[i - 1]; }
    }
  }

  lemma DistinctLineCons(line: Line)
    requires line != [] && DistinctLine(line[1..])
    requires line[0].Some? ==> line[0].val.id !in LineIds(line[1..])
    ensures DistinctLine(line)
  {
    var tail := line[1..];
    forall i, j | 0 <= i < j < |line| && line[i].Some? && line[j].Some?
      ensures line[i].val.id != line[j].val.id
    {
      assert line[j] == tail[j - 1];
      if i > 0 { assert line[i] == tail[i - 1]; }
    }
  }
}
