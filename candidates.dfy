/** Adjacency rules: for every tile and every offset of the overlap window,
    the set of tiles that agree with it wherever the two frames overlap. */
module Candidates {
  import opened Tiles
  import opened Results
  import opened SeqUtil

  /** A displacement (dx, dy) of the second tile's frame against the first. */
  type Offset = (int, int)

  /** uid -> offset -> the uids of the compatible tiles. */
  type Table = map<int, map<Offset, set<int>>>

  /** Cell (x1, y1) of `a` raises no conflict with `b` displaced by `o`:
      either its displaced position falls outside the K x K frame (K being
      `a`'s size) or both tiles carry the same colour there. */
  predicate Agree(a: Tile, b: Tile, o: Offset, x1: int, y1: int)
    requires IsSquare(a.pixels, a.Size()) && IsSquare(b.pixels, a.Size())
    requires 0 <= x1 < a.Size() && 0 <= y1 < a.Size()
  {
    var k := a.Size();
    var x2, y2 := x1 + o.0, y1 + o.1;
    x2 < 0 || x2 >= k || y2 < 0 || y2 >= k || a.pixels[x1][y1] == b.pixels[x2][y2]
  }

  /** The two tiles can be laid with `b` displaced by `o` from `a`: no cell
      of `a` conflicts with `b`. */
  predicate Compatible(a: Tile, b: Tile, o: Offset)
    requires IsSquare(a.pixels, a.Size()) && IsSquare(b.pixels, a.Size())
  {
    forall x1, y1 :: 0 <= x1 < a.Size() && 0 <= y1 < a.Size() ==> Agree(a, b, o, x1, y1)
  }

  /** is_candidate_overlap_valid: visits the cells of `a` row by row and
      gives up at the first overlapping cell whose colours differ. */
  method IsCandidateOverlapValid(a: Tile, b: Tile, offset: Offset) returns (valid: bool)
    requires IsSquare(a.pixels, a.Size()) && IsSquare(b.pixels, a.Size())
    ensures valid <==> Compatible(a, b, offset)
  {
    var size := a.Size();
    var (dx, dy) := offset;
    for x1 := 0 to size
      invariant forall x, y :: 0 <= x < x1 && 0 <= y < size ==> Agree(a, b, offset, x, y)
    {
      for y1 := 0 to size
        invariant forall x, y :: 0 <= x < x1 && 0 <= y < size ==> Agree(a, b, offset, x, y)
        invariant forall y :: 0 <= y < y1 ==> Agree(a, b, offset, x1, y)
      {
        var x2, y2 := x1 + dx, y1 + dy;
        if x2 < 0 || x2 >= size || y2 < 0 || y2 >= size {
          continue;
        }
        if a.pixels[x1][y1] != b.pixels[x2][y2] {
          assert !Agree(a, b, offset, x1, y1);
          return false;
        }
      }
    }
    return true;
  }

  /** range(1 - K, K): the displacements along one axis. */
  function OffsetRange(k: int): (r: seq<int>)
    ensures forall x :: x in r <==> 1 - k <= x < k
    ensures forall m, n :: 0 <= m < n < |r| ==> r[m] < r[n]
  {
    var r := seq(if k >= 1 then 2 * k - 1 else 0, n => 1 - k + n);
    assert forall x :: 1 - k <= x < k ==> x in r by {
      forall x | 1 - k <= x < k
        ensures x in r
      {
        var n := x - (1 - k);
        assert r[n] == x;
      }
    }
    r
  }

  /** The list of pairs (i, j), i from `xs` in order, j from `ys` in order. */
  function Pairs(xs: seq<int>, ys: seq<int>): (r: seq<Offset>)
    ensures |r| == |xs| * |ys|
  {
    if xs == [] then []
    else seq(|ys|, n requires 0 <= n < |ys| => (xs[0], ys[n])) + Pairs(xs[1..], ys)
  }

  /** Every offset of the overlap window, (0, 0) included. */
  function Offsets(k: int): seq<Offset>
  {
    Pairs(OffsetRange(k), OffsetRange(k))
  }

  /** The offsets a tile's candidate map is keyed by. */
  function OffsetKeys(k: int): set<Offset>
  {
    set o | o in Offsets(k) && o != (0, 0)
  }

  /** The uids of the tiles compatible with tile `a` at offset `o`. */
  function CompatibleSet(ts: Tileset, a: int, o: Offset): set<int>
    requires ts.AllSquare() && a in ts.tiles
  {
    set b | b in ts.tiles && Compatible(ts.tiles[a], ts.tiles[b], o)
  }

  /** The adjacency table of a tileset: one entry per tile, holding for
      each non-zero offset the tiles compatible with it there. */
  function CandidateTable(ts: Tileset): Table
    requires ts.AllSquare()
  {
    map a | a in ts.tiles :: map o | o in OffsetKeys(ts.tileSize) :: CompatibleSet(ts, a, o)
  }

  /** Every (tile, offset, candidate) entry of a table. */
  ghost function Triples(c: Table): set<(int, Offset, int)>
  {
    set a, o, b | a in c && o in c[a] && b in c[a][o] :: (a, o, b)
  }

  /** The entries of one tile's row. */
  ghost function RowTriples(a: int, row: map<Offset, set<int>>): set<(int, Offset, int)>
  {
    set o, b | o in row && b in row[o] :: (a, o, b)
  }

  /** The entries of one cell. */
  ghost function CellTriples(a: int, o: Offset, s: set<int>): set<(int, Offset, int)>
  {
    set b | b in s :: (a, o, b)
  }

  /** compute_candidates, with the result keyed by the tile id of the outer
      loop (see ComputeCandidatesAsWritten for the source's `tile.uid`).
      `nCandidates` is the source's logged running counter. */
  method ComputeCandidates(ts: Tileset) returns (candidates: Table, nCandidates: nat)
    requires ts.AllSquare()
    ensures candidates == CandidateTable(ts)
    ensures nCandidates == |Triples(candidates)|
  {
    var offsets := Offsets(ts.tileSize);
    candidates, nCandidates := map[], 0;
    var tile: Option<Tile> := None;
    var remaining := ts.tiles.Keys;
    while remaining != {}
      invariant remaining <= ts.tiles.Keys
      invariant candidates.Keys == ts.tiles.Keys - remaining
      invariant forall a :: a in candidates ==> candidates[a] == CandidateTable(ts)[a]
      invariant nCandidates == |Triples(candidates)|
      decreases |remaining|
    {
      HasElement(remaining);
      var tileId :| tileId in remaining;
      var tileCandidates;
      tileCandidates, nCandidates, tile := FillTileCandidates(ts, tileId, offsets, nCandidates, tile);
      TriplesAdd(candidates, tileId, tileCandidates);
      candidates := candidates[tileId := tileCandidates];
      remaining := remaining - {tileId};
    }
  }

  /** compute_candidates as written: the row of each tile is stored under
      `tile.uid` (line 100), where `tile` is the local last bound inside the
      loop over candidates (line 92) and carries over from one tile to the
      next. On a tileset whose tiles sit under their own uids, `tile.uid` is
      the current tile id whenever `tile` is bound; when no non-zero offset
      exists the candidate loop never runs and the first store raises. */
  method ComputeCandidatesAsWritten(ts: Tileset) returns (r: Result<Table>, nCandidates: nat)
    requires ts.AllSquare() && ts.KeyedByUid()
    ensures r.Err? <==> |ts.tiles| > 0 && ts.tileSize < 2
    ensures r.Err? ==> r.error == UnboundLocalError("tile")
    ensures r.Ok? ==> r.value == CandidateTable(ts) && nCandidates == |Triples(r.value)|
  {
    var offsets := Offsets(ts.tileSize);
    var candidates: Table := map[];
    nCandidates := 0;
    var tile: Option<Tile> := None;
    OffsetKeysNonEmpty(ts.tileSize);
    var remaining := ts.tiles.Keys;
    while remaining != {}
      invariant remaining <= ts.tiles.Keys
      invariant candidates.Keys == ts.tiles.Keys - remaining
      invariant forall a :: a in candidates ==> candidates[a] == CandidateTable(ts)[a]
      invariant nCandidates == |Triples(candidates)|
      invariant OffsetKeys(ts.tileSize) == {} ==> tile == None
      invariant remaining != ts.tiles.Keys ==> OffsetKeys(ts.tileSize) != {}
      decreases |remaining|
    {
      HasElement(remaining);
      var tileId :| tileId in remaining;
      var tileCandidates;
      tileCandidates, nCandidates, tile := FillTileCandidates(ts, tileId, offsets, nCandidates, tile);
      if tile.None? {
        return Err(UnboundLocalError("tile")), nCandidates;
      }
      TriplesAdd(candidates, tileId, tileCandidates);
      candidates := candidates[tile.value.uid := tileCandidates];
      remaining := remaining - {tileId};
    }
    r := Ok(candidates);
  }

  /** Some offset of the window is non-zero exactly when K >= 2. */
  lemma OffsetKeysNonEmpty(k: int)
    ensures OffsetKeys(k) != {} <==> k >= 2
  {
    var r := OffsetRange(k);
    if k >= 2 {
      PairsMembership(r, r, (1, 0));
      assert (1, 0) in OffsetKeys(k);
    } else {
      forall o | o in Offsets(k)
        ensures o == (0, 0)
      {
        PairsMembership(r, r, o);
      }
    }
  }

  /** The loop over offsets for one tile, skipping (0, 0). Each tile id is
      visited once, so the source's lookup of an earlier row for it always
      falls back to a fresh empty dictionary; likewise for each offset. */
  method FillTileCandidates(ts: Tileset, tileId: int, offsets: seq<Offset>, n: nat, tile: Option<Tile>)
    returns (row: map<Offset, set<int>>, n': nat, tile': Option<Tile>)
    requires ts.AllSquare() && tileId in ts.tiles
    requires offsets == Offsets(ts.tileSize)
    ensures row == CandidateTable(ts)[tileId]
    ensures n' == n + |RowTriples(tileId, row)|
    ensures tile' == if OffsetKeys(ts.tileSize) == {} then tile else Some(ts.tiles[tileId])
  {
    row, n', tile' := map[], n, tile;
    OffsetsDistinct(ts.tileSize);
    for idx := 0 to |offsets|
      invariant row == PartialRow(ts, tileId, offsets[..idx])
      invariant n' == n + |RowTriples(tileId, row)|
      invariant tile' == if row == map[] then tile else Some(ts.tiles[tileId])
    {
      var offset := offsets[idx];
      PartialRowStep(ts, tileId, offsets, idx);
      if offset == (0, 0) {
        continue;
      }
      var offsetCandidates;
      offsetCandidates, n', tile' := FillOffsetCandidates(ts, tileId, offset, n', tile');
      RowTriplesAdd(tileId, row, offset, offsetCandidates);
      row := row[offset := offsetCandidates];
    }
    assert offsets[..|offsets|] == offsets;
  }

  /** The entries the offset loop has written after the offsets in `s`. */
  ghost function PartialRow(ts: Tileset, a: int, s: seq<Offset>): map<Offset, set<int>>
    requires ts.AllSquare() && a in ts.tiles
  {
    map o | o in s && o != (0, 0) :: CompatibleSet(ts, a, o)
  }

  /** One more offset adds its entry, unless it is (0, 0); a repeated offset
      cannot occur because the offsets are distinct. */
  lemma PartialRowStep(ts: Tileset, a: int, s: seq<Offset>, i: int)
    requires ts.AllSquare() && a in ts.tiles
    requires Distinct(s) && 0 <= i < |s|
    ensures s[i] !in PartialRow(ts, a, s[..i])
    ensures PartialRow(ts, a, s[..i + 1])
            == if s[i] == (0, 0) then PartialRow(ts, a, s[..i])
               else PartialRow(ts, a, s[..i])[s[i] := CompatibleSet(ts, a, s[i])]
  {
  }

  /** The loop over candidate tiles for one tile and one offset: every
      compatible candidate is added and counted. */
  method FillOffsetCandidates(ts: Tileset, tileId: int, offset: Offset, n: nat, tile: Option<Tile>)
    returns (found: set<int>, n': nat, tile': Option<Tile>)
    requires ts.AllSquare() && tileId in ts.tiles
    ensures found == CompatibleSet(ts, tileId, offset)
    ensures n' == n + |found|
    ensures tile' == Some(ts.tiles[tileId])
  {
    found, n', tile' := {}, n, tile;
    var remaining := ts.tiles.Keys;
    while remaining != {}
      invariant remaining <= ts.tiles.Keys
      invariant found == set b | b in ts.tiles.Keys - remaining && Compatible(ts.tiles[tileId], ts.tiles[b], offset)
      invariant n' == n + |found|
      invariant tile' == if remaining == ts.tiles.Keys then tile else Some(ts.tiles[tileId])
      decreases |remaining|
    {
      HasElement(remaining);
      var candidateTileId :| candidateTileId in remaining;
      tile' := Some(ts.tiles[tileId]);
      var candidateTile := ts.tiles[candidateTileId];
      var valid := IsCandidateOverlapValid(tile'.value, candidateTile, offset);
      if valid {
        found := found + {candidateTileId};
        n' := n' + 1;
      }
      remaining := remaining - {candidateTileId};
    }
  }

  /** The pairs list holds exactly the pairs of its two axes. */
  lemma {:induction false} PairsMembership(xs: seq<int>, ys: seq<int>, o: Offset)
    ensures o in Pairs(xs, ys) <==> o.0 in xs && o.1 in ys
  {
    if xs != [] {
      PairsMembership(xs[1..], ys, o);
      var head := seq(|ys|, n requires 0 <= n < |ys| => (xs[0], ys[n]));
      assert Pairs(xs, ys) == head + Pairs(xs[1..], ys);
      if o.0 == xs[0] && o.1 in ys {
        var n :| 0 <= n < |ys| && ys[n] == o.1;
        assert head[n] == o;
      }
      assert o.0 in xs <==> o.0 == xs[0] || o.0 in xs[1..];
    }
  }

  /** No pair is listed twice when neither axis repeats a value. */
  lemma {:induction false} PairsDistinct(xs: seq<int>, ys: seq<int>)
    requires Distinct(xs) && Distinct(ys)
    ensures Distinct(Pairs(xs, ys))
  {
    if xs != [] {
      assert Distinct(xs[1..]);
      PairsDistinct(xs[1..], ys);
      var head := seq(|ys|, n requires 0 <= n < |ys| => (xs[0], ys[n]));
      var tail := Pairs(xs[1..], ys);
      forall o | o in tail
        ensures o !in head
      {
        PairsMembership(xs[1..], ys, o);
        assert xs[0] !in xs[1..];
      }
      SeqUtil.DistinctConcat(head, tail);
    }
  }

  lemma OffsetsDistinct(k: int)
    ensures Distinct(Offsets(k))
  {
    var r := OffsetRange(k);
    assert Distinct(r) by {
      forall m, n | 0 <= m < n < |r|
        ensures r[m] != r[n]
      {
        assert r[m] < r[n];
      }
    }
    PairsDistinct(OffsetRange(k), OffsetRange(k));
  }

  /** A new key adds its row's entries and nothing else. */
  lemma TriplesAdd(c: Table, a: int, row: map<Offset, set<int>>)
    requires a !in c
    ensures |Triples(c[a := row])| == |Triples(c)| + |RowTriples(a, row)|
  {
    var c' := c[a := row];
    assert Triples(c') == Triples(c) + RowTriples(a, row) by {
      forall t | t in Triples(c')
        ensures t in Triples(c) + RowTriples(a, row)
      {
        var (x, o, b) := t;
        if x != a {
          assert c'[x] == c[x];
        }
      }
    }
    assert Triples(c) * RowTriples(a, row) == {};
  }

  /** A new offset adds one entry per candidate in its cell. */
  lemma RowTriplesAdd(a: int, row: map<Offset, set<int>>, o: Offset, s: set<int>)
    requires o !in row
    ensures |RowTriples(a, row[o := s])| == |RowTriples(a, row)| + |s|
  {
    var row' := row[o := s];
    assert RowTriples(a, row') == RowTriples(a, row) + CellTriples(a, o, s) by {
      forall t | t in RowTriples(a, row')
        ensures t in RowTriples(a, row) + CellTriples(a, o, s)
      {
        var (x, p, b) := t;
        if p != o {
          assert row'[p] == row[p];
        }
      }
    }
    assert RowTriples(a, row) * CellTriples(a, o, s) == {};
    CellTriplesCard(a, o, s);
  }

  lemma {:induction false} CellTriplesCard(a: int, o: Offset, s: set<int>)
    ensures |CellTriples(a, o, s)| == |s|
  {
    if s != {} {
      HasElement(s);
      var b :| b in s;
      CellTriplesCard(a, o, s - {b});
      assert CellTriples(a, o, s) == CellTriples(a, o, s - {b}) + {(a, o, b)};
    }
  }
}
