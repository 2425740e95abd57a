/** Properties of the overlap check and of the adjacency table. */
module CandidatesFacts {
  import opened Tiles
  import opened Results
  import opened SeqUtil
  import opened Candidates

  /** Both tiles are K x K. */
  predicate SameSquare(a: Tile, b: Tile, k: int)
  {
    IsSquare(a.pixels, k) && IsSquare(b.pixels, k)
  }

  /** Laying `b` at (dx, dy) from `a` is laying `a` at (-dx, -dy) from `b`. */
  lemma CompatibleSymmetric(a: Tile, b: Tile, k: int, dx: int, dy: int)
    requires SameSquare(a, b, k)
    ensures Compatible(a, b, (dx, dy)) <==> Compatible(b, a, (-dx, -dy))
  {
    if Compatible(a, b, (dx, dy)) {
      CompatibleFlips(a, b, k, dx, dy);
    }
    if Compatible(b, a, (-dx, -dy)) {
      CompatibleFlips(b, a, k, -dx, -dy);
    }
  }

  lemma CompatibleFlips(a: Tile, b: Tile, k: int, dx: int, dy: int)
    requires SameSquare(a, b, k) && Compatible(a, b, (dx, dy))
    ensures Compatible(b, a, (-dx, -dy))
  {
    var back := (-dx, -dy);
    forall x1, y1 | 0 <= x1 < k && 0 <= y1 < k
      ensures Agree(b, a, back, x1, y1)
    {
      var x0, y0 := x1 - dx, y1 - dy;
      if 0 <= x0 < k && 0 <= y0 < k {
        assert Agree(a, b, (dx, dy), x0, y0);
      }
    }
  }

  /** Frames displaced by K or more along an axis do not overlap, so any two
      tiles are compatible there. */
  lemma FarOffsetCompatible(a: Tile, b: Tile, k: int, dx: int, dy: int)
    requires SameSquare(a, b, k)
    requires dx >= k || dx <= -k || dy >= k || dy <= -k
    ensures Compatible(a, b, (dx, dy))
  {
  }

  /** With no displacement the check compares the whole grids. */
  lemma ZeroOffsetIsEquality(a: Tile, b: Tile, k: int)
    requires SameSquare(a, b, k)
    ensures Compatible(a, b, (0, 0)) <==> a.pixels == b.pixels
  {
    if Compatible(a, b, (0, 0)) {
      forall x1, y1 | 0 <= x1 < k && 0 <= y1 < k
        ensures a.pixels[x1][y1] == b.pixels[x1][y1]
      {
        assert Agree(a, b, (0, 0), x1, y1);
      }
      forall x1 | 0 <= x1 < k
        ensures a.pixels[x1] == b.pixels[x1]
      {
      }
    }
  }

  /** Every tile overlaps itself exactly. */
  lemma SelfCompatible(a: Tile, k: int)
    requires IsSquare(a.pixels, k)
    ensures Compatible(a, a, (0, 0))
  {
    ZeroOffsetIsEquality(a, a, k);
  }

  /** The offset list holds every (dx, dy) with both components in
      [1 - K, K - 1], each once. */
  lemma OffsetsMembership(k: int, o: Offset)
    ensures o in Offsets(k) <==> 1 - k <= o.0 < k && 1 - k <= o.1 < k
  {
    var r := OffsetRange(k);
    Candidates.PairsMembership(r, r, o);
  }

  /** The number of adjacency positions: (2K - 1)^2 - 1 non-zero offsets
      for K >= 1, none otherwise. */
  lemma OffsetKeysCount(k: int)
    ensures (0, 0) !in OffsetKeys(k)
    ensures |OffsetKeys(k)| == if k >= 1 then (2 * k - 1) * (2 * k - 1) - 1 else 0
  {
    var os := Offsets(k);
    OffsetsDistinct(k);
    DistinctCard(os);
    assert OffsetKeys(k) == Elems(os) - {(0, 0)};
    if k >= 1 {
      OffsetsMembership(k, (0, 0));
    } else {
      assert os == [];
    }
  }

  /** The table has one entry per tile, each keyed by the non-zero offsets
      of the overlap window. */
  lemma TableShape(ts: Tileset)
    requires ts.AllSquare()
    ensures CandidateTable(ts).Keys == ts.tiles.Keys
    ensures forall a :: a in CandidateTable(ts) ==> CandidateTable(ts)[a].Keys == OffsetKeys(ts.tileSize)
  {
  }

  /** `b` is a candidate of `a` at offset `o` exactly when the overlap check
      accepts `b` laid at `o` from `a`. */
  lemma TableMembership(ts: Tileset, a: int, o: Offset, b: int)
    requires ts.AllSquare() && a in ts.tiles && b in ts.tiles && o in OffsetKeys(ts.tileSize)
    ensures b in CandidateTable(ts)[a][o] <==> Compatible(ts.tiles[a], ts.tiles[b], o)
  {
  }

  /** Every candidate is the id of a tile of the tileset. */
  lemma CandidatesAreTiles(ts: Tileset)
    requires ts.AllSquare()
    ensures forall a, o, b :: a in CandidateTable(ts) && o in CandidateTable(ts)[a] && b in CandidateTable(ts)[a][o] ==>
      b in ts.tiles
  {
  }

  /** Adjacency is mutual: `b` fits at (dx, dy) from `a` exactly when `a`
      fits at (-dx, -dy) from `b`. */
  lemma TableSymmetric(ts: Tileset, a: int, b: int, dx: int, dy: int)
    requires ts.AllSquare() && a in ts.tiles && b in ts.tiles
    requires (dx, dy) in OffsetKeys(ts.tileSize)
    ensures (-dx, -dy) in OffsetKeys(ts.tileSize)
    ensures b in CandidateTable(ts)[a][(dx, dy)] <==> a in CandidateTable(ts)[b][(-dx, -dy)]
  {
    OffsetsMembership(ts.tileSize, (dx, dy));
    OffsetsMembership(ts.tileSize, (-dx, -dy));
    CompatibleSymmetric(ts.tiles[a], ts.tiles[b], ts.tileSize, dx, dy);
  }

  /** With 1 x 1 tiles (or none wider) the only offset is (0, 0), which is
      skipped: every tile's entry is empty. */
  lemma UnitTilesHaveNoOffsets(ts: Tileset)
    requires ts.AllSquare() && ts.tileSize <= 1
    ensures forall a :: a in CandidateTable(ts) ==> CandidateTable(ts)[a] == map[]
  {
    OffsetKeysCount(ts.tileSize);
  }

  /** The smallest input that shows the unbound `tile`: one 1 x 1 tile. The
      source raises, where the evident intent is one empty entry. */
  method AsWrittenFailsOnUnitTiles() returns (asWritten: Result<Table>, intended: Table)
    ensures asWritten == Err(UnboundLocalError("tile"))
    ensures intended == map[0 := map[]]
  {
    var ts := Tileset(1, map[0 := Tile(0, [[7]], 1.0)], {7});
    UnitTilesHaveNoOffsets(ts);
    var n: nat;
    asWritten, n := ComputeCandidatesAsWritten(ts);
    intended, n := ComputeCandidates(ts);
  }
}
