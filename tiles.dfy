/** The immutable records of the tile model: a tile and a tileset. */
module Tiles {

  /** A two-dimensional grid of palette-integer colours, row by row. */
  type Grid = seq<seq<int>>

  /** `g` has `k` rows of `k` columns each. */
  predicate IsSquare(g: Grid, k: int)
  {
    |g| == k && forall r :: 0 <= r < |g| ==> |g[r]| == k
  }

  /** A square block of colours with its identity and relative frequency. */
  datatype Tile = Tile(uid: int, pixels: Grid, frequency: real)
  {
    /** The side length of the tile: the number of rows of its pixel grid. */
    function Size(): (r: nat)
      ensures forall k :: IsSquare(pixels, k) ==> r == k
      ensures r == 0 <==> pixels == []
    {
      |pixels|
    }
  }

  /** All tiles of a tileset, keyed by uid, with the sample's palette. */
  datatype Tileset = Tileset(tileSize: int, tiles: map<int, Tile>, colorPallet: set<int>)
  {
    /** The number of tiles. */
    function NTiles(): (r: nat)
      ensures r == 0 <==> tiles == map[]
      ensures forall u :: u in tiles ==> r > 0
    {
      |tiles|
    }

    /** The number of distinct colours in the palette. */
    function NColors(): (r: nat)
      ensures r == 0 <==> colorPallet == {}
      ensures forall c :: c in colorPallet ==> r > 0
    {
      |colorPallet|
    }

    /** Every tile is a `tileSize` x `tileSize` grid. */
    predicate AllSquare()
    {
      forall u :: u in tiles ==> IsSquare(tiles[u].pixels, tileSize)
    }

    /** Every tile is stored under its own uid. */
    predicate KeyedByUid()
    {
      forall u :: u in tiles ==> tiles[u].uid == u
    }
  }
}
