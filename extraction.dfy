/** Tile extraction: every K x K window of a sample grid, read with toroidal
    wrap-around, deduplicated by its flattened fingerprint and counted. */
module Extraction {
  import opened Tiles
  import opened Results
  import opened SeqUtil

  /** The number of columns of a grid (0 for a grid without rows). */
  function Width(s: Grid): nat
  {
    if |s| == 0 then 0 else |s[0]|
  }

  /** The number of pixels of a grid, H * W. */
  function Area(s: Grid): nat
  {
    |s| * Width(s)
  }

  /** Every row has the same length, as in a two-dimensional numpy array. */
  predicate IsRect(s: Grid)
  {
    forall r :: 0 <= r < |s| ==> |s[r]| == Width(s)
  }

  /** The K x K window with corner (i, j): cell (k, l) reads the sample at
      ((i + k) mod H, (j + l) mod W). */
  function Window(s: Grid, i: int, j: int, size: nat): (w: Grid)
    requires IsRect(s) && 0 <= i < |s| && 0 <= j < Width(s)
    ensures IsSquare(w, size)
  {
    seq(size, k requires 0 <= k < size =>
      seq(size, l requires 0 <= l < size => s[(i + k) % |s|][(j + l) % Width(s)]))
  }

  /** The windows whose corners lie in row `i`, left to right. */
  function RowWindows(s: Grid, size: nat, i: int): (ws: seq<Grid>)
    requires IsRect(s) && 0 <= i < |s|
    ensures |ws| == Width(s)
  {
    seq(Width(s), j requires 0 <= j < Width(s) => Window(s, i, j, size))
  }

  /** The windows of the first `i` rows of corners, in row-major order. */
  function WindowsBefore(s: Grid, size: nat, i: int): seq<Grid>
    requires IsRect(s) && 0 <= i <= |s|
  {
    if i == 0 then [] else WindowsBefore(s, size, i - 1) + RowWindows(s, size, i - 1)
  }

  /** The windows the scan has met once it reaches corner (i, j). */
  function Seen(s: Grid, size: nat, i: int, j: int): seq<Grid>
    requires IsRect(s) && 0 <= i < |s| && 0 <= j <= Width(s)
  {
    WindowsBefore(s, size, i) + RowWindows(s, size, i)[..j]
  }

  /** How the scan's history grows: nothing new at the start of a row, one
      window per step, the next row's prefix at the end of a row. */
  lemma RowSeen(s: Grid, size: nat, i: int, j: int)
    requires IsRect(s) && 0 <= i < |s| && 0 <= j <= Width(s)
    ensures j == 0 ==> Seen(s, size, i, j) == WindowsBefore(s, size, i)
    ensures j > 0 ==> Seen(s, size, i, j) == Seen(s, size, i, j - 1) + [Window(s, i, j - 1, size)]
    ensures j == Width(s) ==> Seen(s, size, i, j) == WindowsBefore(s, size, i + 1)
  {
    if j > 0 {
      assert RowWindows(s, size, i)[..j] == RowWindows(s, size, i)[..j - 1] + [Window(s, i, j - 1, size)];
    }
    if j == Width(s) {
      assert RowWindows(s, size, i)[..j] == RowWindows(s, size, i);
    }
  }

  /** The window of every corner of the sample, in row-major order. */
  function AllWindows(s: Grid, size: nat): seq<Grid>
    requires IsRect(s)
  {
    WindowsBefore(s, size, |s|)
  }

  /** The row-major concatenation of a grid's rows: numpy's `flatten`. */
  function Flatten(g: Grid): seq<int>
  {
    if g == [] then [] else g[0] + Flatten(g[1..])
  }

  /** The contents of a two-dimensional array as a grid. */
  function ToGrid(a: array2<int>): (g: Grid)
    reads a
    ensures IsSquare(g, a.Length0) || a.Length0 != a.Length1
  {
    seq(a.Length0, k requires 0 <= k < a.Length0 reads a =>
      seq(a.Length1, l requires 0 <= l < a.Length1 reads a => a[k, l]))
  }

  lemma {:induction false} FlattenLength(g: Grid, size: nat)
    requires forall k :: 0 <= k < |g| ==> |g[k]| == size
    ensures |Flatten(g)| == |g| * size
  {
    if g != [] {
      FlattenLength(g[1..], size);
    }
  }

  /** Two grids of the same shape with the same fingerprint are equal, so
      deduplicating by fingerprint is deduplicating by pixels. */
  lemma {:induction false} FlattenInjective(g: Grid, h: Grid, size: nat)
    requires |g| == |h|
    requires forall k :: 0 <= k < |g| ==> |g[k]| == size && |h[k]| == size
    requires Flatten(g) == Flatten(h)
    ensures g == h
  {
    if g != [] {
      FlattenLength(g[1..], size);
      FlattenLength(h[1..], size);
      assert g[0] == Flatten(g)[..size];
      assert h[0] == Flatten(h)[..size];
      assert Flatten(g[1..]) == Flatten(g)[size..];
      assert Flatten(h[1..]) == Flatten(h)[size..];
      FlattenInjective(g[1..], h[1..], size);
      assert g == [g[0]] + g[1..];
      assert h == [h[0]] + h[1..];
    }
  }

  /** What the three dictionaries of the extraction loop hold after the
      windows in `seen` have been visited. */
  ghost predicate TableInv(seen: seq<Grid>, size: nat, fingerprints: set<seq<int>>,
                           pixelsMap: map<seq<int>, Grid>, counts: map<seq<int>, nat>)
  {
    && fingerprints == pixelsMap.Keys == counts.Keys
    && SeenStored(seen, size, pixelsMap)
    && StoredSeen(seen, pixelsMap)
    && CountsMatch(seen, pixelsMap, counts)
  }

  /** Every visited window is K x K and its fingerprint has stored pixels. */
  ghost predicate SeenStored(seen: seq<Grid>, size: nat, pixelsMap: map<seq<int>, Grid>)
  {
    forall x :: x in seen ==> IsSquare(x, size) && Flatten(x) in pixelsMap
  }

  /** Every stored grid is a visited window filed under its own fingerprint. */
  ghost predicate StoredSeen(seen: seq<Grid>, pixelsMap: map<seq<int>, Grid>)
  {
    forall fp :: fp in pixelsMap ==> Flatten(pixelsMap[fp]) == fp && pixelsMap[fp] in seen
  }

  /** Every count is the number of visits of its fingerprint's window. */
  ghost predicate CountsMatch(seen: seq<Grid>, pixelsMap: map<seq<int>, Grid>, counts: map<seq<int>, nat>)
    requires counts.Keys <= pixelsMap.Keys
  {
    forall fp :: fp in counts ==> counts[fp] == multiset(seen)[pixelsMap[fp]]
  }

  /** The window `w` and its fingerprint's stored grid agree; a new
      fingerprint belongs to a window not seen before. */
  lemma StepLookup(seen: seq<Grid>, size: nat, pixelsMap: map<seq<int>, Grid>, w: Grid)
    requires IsSquare(w, size)
    requires SeenStored(seen, size, pixelsMap) && StoredSeen(seen, pixelsMap)
    ensures Flatten(w) in pixelsMap ==> pixelsMap[Flatten(w)] == w
    ensures Flatten(w) !in pixelsMap ==> w !in seen
  {
    if Flatten(w) in pixelsMap {
      FlattenInjective(pixelsMap[Flatten(w)], w, size);
    }
  }

  lemma StepGrids(seen: seq<Grid>, size: nat, pixelsMap: map<seq<int>, Grid>, w: Grid,
                   pixelsMap': map<seq<int>, Grid>)
    requires IsSquare(w, size)
    requires SeenStored(seen, size, pixelsMap) && StoredSeen(seen, pixelsMap)
    requires pixelsMap' == if Flatten(w) in pixelsMap then pixelsMap else pixelsMap[Flatten(w) := w]
    ensures SeenStored(seen + [w], size, pixelsMap') && StoredSeen(seen + [w], pixelsMap')
  {
    forall x | x in seen + [w]
      ensures IsSquare(x, size) && Flatten(x) in pixelsMap'
    {
      if x != w {
        assert x in seen;
      }
    }
    forall f | f in pixelsMap'
      ensures Flatten(pixelsMap'[f]) == f && pixelsMap'[f] in seen + [w]
    {
      if f != Flatten(w) {
        assert pixelsMap'[f] == pixelsMap[f];
      }
    }
  }

  lemma StepCounts(seen: seq<Grid>, size: nat, pixelsMap: map<seq<int>, Grid>, counts: map<seq<int>, nat>, w: Grid,
                   pixelsMap': map<seq<int>, Grid>, counts': map<seq<int>, nat>)
    requires IsSquare(w, size)
    requires SeenStored(seen, size, pixelsMap) && StoredSeen(seen, pixelsMap)
    requires counts.Keys == pixelsMap.Keys && CountsMatch(seen, pixelsMap, counts)
    requires pixelsMap' == if Flatten(w) in pixelsMap then pixelsMap else pixelsMap[Flatten(w) := w]
    requires counts' == counts[Flatten(w) := (if Flatten(w) in counts then counts[Flatten(w)] else 0) + 1]
    ensures counts'.Keys == pixelsMap'.Keys && CountsMatch(seen + [w], pixelsMap', counts')
  {
    var fp := Flatten(w);
    StepLookup(seen, size, pixelsMap, w);
    assert multiset(seen + [w]) == multiset(seen) + multiset{w};
    forall f | f in counts'
      ensures counts'[f] == multiset(seen + [w])[pixelsMap'[f]]
    {
      if f != fp {
        assert pixelsMap'[f] == pixelsMap[f] != w;
      }
    }
  }

  /** Visiting one more window keeps the dictionaries in step with it. */
  lemma TableInvStep(seen: seq<Grid>, size: nat, fingerprints: set<seq<int>>,
                     pixelsMap: map<seq<int>, Grid>, counts: map<seq<int>, nat>, w: Grid,
                     fingerprints': set<seq<int>>, pixelsMap': map<seq<int>, Grid>, counts': map<seq<int>, nat>)
    requires TableInv(seen, size, fingerprints, pixelsMap, counts)
    requires IsSquare(w, size)
    requires fingerprints' == fingerprints + {Flatten(w)}
    requires pixelsMap' == if Flatten(w) in pixelsMap then pixelsMap else pixelsMap[Flatten(w) := w]
    requires counts' == counts[Flatten(w) := (if Flatten(w) in counts then counts[Flatten(w)] else 0) + 1]
    ensures TableInv(seen + [w], size, fingerprints', pixelsMap', counts')
  {
    StepGrids(seen, size, pixelsMap, w, pixelsMap');
    StepCounts(seen, size, pixelsMap, counts, w, pixelsMap', counts');
    assert fingerprints' == pixelsMap'.Keys == counts'.Keys;
  }

  /** The result of extraction from sample `s` with tile size `size`: uids
      are exactly 0..n-1, each tile is stored under its own uid, the tiles'
      pixel grids are exactly the distinct windows of the sample, and each
      frequency is the window's occurrence count over H * W. */
  ghost predicate ExtractedFrom(s: Grid, size: nat, tiles: map<int, Tile>)
    requires IsRect(s)
  {
    TilesOfWindows(AllWindows(s, size), Area(s), tiles)
  }

  /** `tiles` holds each distinct entry of `ws` once, under uids 0..n-1,
      weighted by its number of occurrences in `ws` over `nPixels`. */
  ghost predicate TilesOfWindows(ws: seq<Grid>, nPixels: nat, tiles: map<int, Tile>)
  {
    && (forall u :: u in tiles <==> 0 <= u < |tiles|)
    && (forall u :: u in tiles ==> tiles[u].uid == u && tiles[u].pixels in ws)
    && (forall w :: w in ws ==> exists u :: u in tiles && tiles[u].pixels == w)
    && (forall u, v :: u in tiles && v in tiles && u != v ==> tiles[u].pixels != tiles[v].pixels)
    && (forall u :: u in tiles ==>
          nPixels > 0 && tiles[u].frequency == multiset(ws)[tiles[u].pixels] as real / nPixels as real)
  }

  /** convert_int_tensor_to_tileset. A tile size of zero leaves `fingerprint`
      unbound at the first window, and numpy refuses a negative size; both only
      matter when the sample has a window at all. The returned uids are some
      numbering 0..n-1 of the distinct windows: the source enumerates a set. */
  method ConvertIntTensorToTileset(sample: Grid, tileSize: int := 3) returns (r: Result<map<int, Tile>>)
    requires IsRect(sample)
    ensures r.Err? <==> |sample| > 0 && Width(sample) > 0 && tileSize <= 0
    ensures r.Err? ==> r.error == if tileSize == 0 then UnboundLocalError("fingerprint")
                                  else ValueError("negative dimensions are not allowed")
    ensures r.Ok? && tileSize <= 0 ==> r.value == map[]
    ensures r.Ok? && tileSize > 0 ==> ExtractedFrom(sample, tileSize, r.value)
  {
    var height := |sample|;
    var width := Width(sample);
    if tileSize <= 0 {
      if height > 0 && width > 0 {
        if tileSize == 0 {
          return Err(UnboundLocalError("fingerprint"));
        }
        return Err(ValueError("negative dimensions are not allowed"));
      }
      return Ok(map[]);
    }
    var tileFingerprints, tilePixelsMap, tileCount := TallyWindows(sample, tileSize);
    var tiles := NumberTiles(tileFingerprints, tilePixelsMap, tileCount, Area(sample));
    EnumerationIsExtraction(sample, tileSize, tileFingerprints, tilePixelsMap, tileCount, tiles);
    return Ok(tiles);
  }

  /** The loops over window corners: every window is read, fingerprinted,
      counted, and its pixels kept the first time its fingerprint is seen. */
  method TallyWindows(sample: Grid, tileSize: nat)
    returns (tileFingerprints: set<seq<int>>, tilePixelsMap: map<seq<int>, Grid>, tileCount: map<seq<int>, nat>)
    requires IsRect(sample)
    ensures TableInv(AllWindows(sample, tileSize), tileSize, tileFingerprints, tilePixelsMap, tileCount)
    ensures tileFingerprints == {} || Area(sample) > 0
  {
    tileFingerprints, tilePixelsMap, tileCount := {}, map[], map[];
    for i := 0 to |sample|
      invariant TableInv(WindowsBefore(sample, tileSize, i), tileSize, tileFingerprints, tilePixelsMap, tileCount)
      invariant tileFingerprints == {} || Area(sample) > 0
    {
      tileFingerprints, tilePixelsMap, tileCount :=
        TallyRow(sample, i, tileSize, tileFingerprints, tilePixelsMap, tileCount);
    }
  }

  /** The inner loop: every window whose corner lies on row i, left to right. */
  method TallyRow(sample: Grid, i: int, tileSize: nat,
                  fingerprints: set<seq<int>>, pixelsMap: map<seq<int>, Grid>, counts: map<seq<int>, nat>)
    returns (tileFingerprints: set<seq<int>>, tilePixelsMap: map<seq<int>, Grid>, tileCount: map<seq<int>, nat>)
    requires IsRect(sample) && 0 <= i < |sample|
    requires TableInv(WindowsBefore(sample, tileSize, i), tileSize, fingerprints, pixelsMap, counts)
    requires fingerprints == {} || Area(sample) > 0
    ensures TableInv(WindowsBefore(sample, tileSize, i + 1), tileSize, tileFingerprints, tilePixelsMap, tileCount)
    ensures tileFingerprints == {} || Area(sample) > 0
  {
    tileFingerprints, tilePixelsMap, tileCount := fingerprints, pixelsMap, counts;
    RowSeen(sample, tileSize, i, 0);
    for j := 0 to Width(sample)
      invariant TableInv(Seen(sample, tileSize, i, j), tileSize, tileFingerprints, tilePixelsMap, tileCount)
      invariant tileFingerprints == {} || Area(sample) > 0
    {
      tileFingerprints, tilePixelsMap, tileCount :=
        TallyWindow(sample, i, j, tileSize, Seen(sample, tileSize, i, j), tileFingerprints, tilePixelsMap, tileCount);
      RowSeen(sample, tileSize, i, j + 1);
    }
    RowSeen(sample, tileSize, i, Width(sample));
  }

  /** One pass of the inner loop body: read the window at corner (i, j),
      fingerprint it, bump its count and remember its pixels the first time
      the fingerprint is met. */
  method TallyWindow(sample: Grid, i: int, j: int, tileSize: nat, ghost seen: seq<Grid>,
                     fingerprints: set<seq<int>>, pixelsMap: map<seq<int>, Grid>, counts: map<seq<int>, nat>)
    returns (tileFingerprints: set<seq<int>>, tilePixelsMap: map<seq<int>, Grid>, tileCount: map<seq<int>, nat>)
    requires IsRect(sample) && 0 <= i < |sample| && 0 <= j < Width(sample)
    requires TableInv(seen, tileSize, fingerprints, pixelsMap, counts)
    ensures TableInv(seen + [Window(sample, i, j, tileSize)], tileSize, tileFingerprints, tilePixelsMap, tileCount)
    ensures Area(sample) > 0
  {
    assert |sample| >= 1 && Width(sample) >= 1;
    var tilePixels := ReadWindow(sample, i, j, tileSize);
    var pixels := ToGrid(tilePixels);
    var fingerprint := Flatten(pixels);
    tileFingerprints := fingerprints + {fingerprint};
    tileCount := counts[fingerprint := (if fingerprint in counts then counts[fingerprint] else 0) + 1];
    tilePixelsMap := pixelsMap;
    if fingerprint !in tilePixelsMap {
      tilePixelsMap := tilePixelsMap[fingerprint := pixels];
    }
    TableInvStep(seen, tileSize, fingerprints, pixelsMap, counts, pixels,
                 tileFingerprints, tilePixelsMap, tileCount);
  }

  /** The window loops: a fresh K x K array filled, cell by cell, with the
      wrapped-around sample pixels of the window at corner (i, j). */
  method ReadWindow(sample: Grid, i: int, j: int, tileSize: nat) returns (tilePixels: array2<int>)
    requires IsRect(sample) && 0 <= i < |sample| && 0 <= j < Width(sample)
    ensures fresh(tilePixels)
    ensures ToGrid(tilePixels) == Window(sample, i, j, tileSize)
  {
    var height, width := |sample|, Width(sample);
    tilePixels := new int[tileSize, tileSize];
    for k := 0 to tileSize
      invariant forall k', l' :: 0 <= k' < k && 0 <= l' < tileSize ==>
        tilePixels[k', l'] == sample[(i + k') % height][(j + l') % width]
    {
      for l := 0 to tileSize
        invariant forall k', l' :: 0 <= k' < k && 0 <= l' < tileSize ==>
          tilePixels[k', l'] == sample[(i + k') % height][(j + l') % width]
        invariant forall l' :: 0 <= l' < l ==>
          tilePixels[k, l'] == sample[(i + k) % height][(j + l') % width]
      {
        tilePixels[k, l] := sample[(i + k) % height][(j + l) % width];
      }
    }
    var w := Window(sample, i, j, tileSize);
    forall k | 0 <= k < tileSize
      ensures ToGrid(tilePixels)[k] == w[k]
    {
      assert forall l :: 0 <= l < tileSize ==> ToGrid(tilePixels)[k][l] == w[k][l];
    }
  }

  /** The tiles of one extraction, as the source lists them: `enumerate` over
      the fingerprint set gives each fingerprint a uid, in whatever order the
      set is iterated. */
  method NumberTiles(fingerprints: set<seq<int>>, pixelsMap: map<seq<int>, Grid>,
                     counts: map<seq<int>, nat>, nPixels: nat)
    returns (tiles: map<int, Tile>)
    requires fingerprints == pixelsMap.Keys == counts.Keys
    requires fingerprints == {} || nPixels > 0
    ensures NumberingOf(fingerprints, pixelsMap, counts, nPixels, tiles)
  {
    tiles := map[];
    var remaining := fingerprints;
    var uid := 0;
    ghost var order: seq<seq<int>> := [];
    while remaining != {}
      invariant remaining <= fingerprints
      invariant |order| == uid && Distinct(order)
      invariant forall m :: 0 <= m < uid ==> order[m] in fingerprints && order[m] !in remaining
      invariant forall fp :: fp in fingerprints && fp !in remaining ==> fp in order
      invariant forall u :: u in tiles ==> 0 <= u < uid
      invariant |tiles| == uid
      invariant forall u :: 0 <= u < uid ==>
        u in tiles && nPixels > 0 && tiles[u] == Tile(u, pixelsMap[order[u]], counts[order[u]] as real / nPixels as real)
      decreases |remaining|
    {
      var fingerprint :| fingerprint in remaining;
      assert fingerprint !in order;
      ghost var before, orderBefore := tiles, order;
      tiles := tiles[uid := Tile(uid, pixelsMap[fingerprint], counts[fingerprint] as real / nPixels as real)];
      order := order + [fingerprint];
      forall u | 0 <= u < uid + 1
        ensures u in tiles && nPixels > 0 &&
          tiles[u] == Tile(u, pixelsMap[order[u]], counts[order[u]] as real / nPixels as real)
      {
        if u < uid {
          assert tiles[u] == before[u] && order[u] == orderBefore[u];
        }
      }
      remaining := remaining - {fingerprint};
      uid := uid + 1;
    }
    assert NumberedBy(order, fingerprints, pixelsMap, counts, nPixels, tiles);
  }

  /** `tiles` numbers the fingerprints 0..n-1, each exactly once, and stores
      under uid u the pixels and relative count of the u-th fingerprint. */
  ghost predicate NumberingOf(fingerprints: set<seq<int>>, pixelsMap: map<seq<int>, Grid>,
                              counts: map<seq<int>, nat>, nPixels: nat, tiles: map<int, Tile>)
    requires fingerprints == pixelsMap.Keys == counts.Keys
  {
    exists order: seq<seq<int>> :: NumberedBy(order, fingerprints, pixelsMap, counts, nPixels, tiles)
  }

  /** `tiles` gives uid u to the fingerprint `order[u]`. */
  ghost predicate NumberedBy(order: seq<seq<int>>, fingerprints: set<seq<int>>, pixelsMap: map<seq<int>, Grid>,
                             counts: map<seq<int>, nat>, nPixels: nat, tiles: map<int, Tile>)
    requires fingerprints == pixelsMap.Keys == counts.Keys
  {
    && |order| == |tiles|
    && Distinct(order)
    && (forall m :: 0 <= m < |order| ==> order[m] in fingerprints)
    && (forall fp :: fp in fingerprints ==> fp in order)
    && (forall u :: u in tiles ==> 0 <= u < |order|)
    && (forall u :: 0 <= u < |order| ==>
          u in tiles && nPixels > 0 && tiles[u] == Tile(u, pixelsMap[order[u]], counts[order[u]] as real / nPixels as real))
  }

  /** Numbering every fingerprint once, in any order, yields an extraction. */
  lemma EnumerationIsExtraction(s: Grid, size: nat, fingerprints: set<seq<int>>,
                                pixelsMap: map<seq<int>, Grid>, counts: map<seq<int>, nat>,
                                tiles: map<int, Tile>)
    requires IsRect(s)
    requires TableInv(AllWindows(s, size), size, fingerprints, pixelsMap, counts)
    requires NumberingOf(fingerprints, pixelsMap, counts, Area(s), tiles)
    ensures ExtractedFrom(s, size, tiles)
  {
    NumberingIsTiling(AllWindows(s, size), size, fingerprints, pixelsMap, counts, Area(s), tiles);
  }

  lemma NumberingIsTiling(ws: seq<Grid>, size: nat, fingerprints: set<seq<int>>,
                          pixelsMap: map<seq<int>, Grid>, counts: map<seq<int>, nat>, nPixels: nat,
                          tiles: map<int, Tile>)
    requires TableInv(ws, size, fingerprints, pixelsMap, counts)
    requires NumberingOf(fingerprints, pixelsMap, counts, nPixels, tiles)
    ensures TilesOfWindows(ws, nPixels, tiles)
  {
    var order :| NumberedBy(order, fingerprints, pixelsMap, counts, nPixels, tiles);
    NumberedTilesAreWindows(ws, size, order, fingerprints, pixelsMap, counts, nPixels, tiles);
    NumberedTilesCoverWindows(ws, size, order, fingerprints, pixelsMap, counts, nPixels, tiles);
    NumberedTilesDistinct(ws, size, order, fingerprints, pixelsMap, counts, nPixels, tiles);
    NumberedTilesFrequencies(ws, size, order, fingerprints, pixelsMap, counts, nPixels, tiles);
  }

  lemma NumberedTilesAreWindows(ws: seq<Grid>, size: nat, order: seq<seq<int>>, fingerprints: set<seq<int>>,
                                pixelsMap: map<seq<int>, Grid>, counts: map<seq<int>, nat>, nPixels: nat,
                                tiles: map<int, Tile>)
    requires TableInv(ws, size, fingerprints, pixelsMap, counts)
    requires NumberedBy(order, fingerprints, pixelsMap, counts, nPixels, tiles)
    ensures forall u :: u in tiles <==> 0 <= u < |tiles|
    ensures forall u :: u in tiles ==> tiles[u].uid == u && tiles[u].pixels in ws
  {
    forall u | u in tiles
      ensures tiles[u].uid == u && tiles[u].pixels in ws
    {
      assert 0 <= u < |order|;
      assert order[u] in pixelsMap;
    }
  }

  lemma NumberedTilesCoverWindows(ws: seq<Grid>, size: nat, order: seq<seq<int>>, fingerprints: set<seq<int>>,
                                  pixelsMap: map<seq<int>, Grid>, counts: map<seq<int>, nat>, nPixels: nat,
                                  tiles: map<int, Tile>)
    requires TableInv(ws, size, fingerprints, pixelsMap, counts)
    requires NumberedBy(order, fingerprints, pixelsMap, counts, nPixels, tiles)
    ensures forall w :: w in ws ==> exists u :: u in tiles && tiles[u].pixels == w
  {
    forall w | w in ws
      ensures exists u :: u in tiles && tiles[u].pixels == w
    {
      var fp := Flatten(w);
      var u :| 0 <= u < |order| && order[u] == fp;
      FlattenInjective(pixelsMap[fp], w, size);
      assert tiles[u].pixels == w;
    }
  }

  lemma NumberedTilesDistinct(ws: seq<Grid>, size: nat, order: seq<seq<int>>, fingerprints: set<seq<int>>,
                              pixelsMap: map<seq<int>, Grid>, counts: map<seq<int>, nat>, nPixels: nat,
                              tiles: map<int, Tile>)
    requires TableInv(ws, size, fingerprints, pixelsMap, counts)
    requires NumberedBy(order, fingerprints, pixelsMap, counts, nPixels, tiles)
    ensures forall u, v :: u in tiles && v in tiles && u != v ==> tiles[u].pixels != tiles[v].pixels
  {
    forall u, v | u in tiles && v in tiles && u != v
      ensures tiles[u].pixels != tiles[v].pixels
    {
      assert 0 <= u < |order| && 0 <= v < |order|;
      assert tiles[u].pixels == pixelsMap[order[u]];
      assert tiles[v].pixels == pixelsMap[order[v]];
      assert order[u] != order[v];
      assert Flatten(pixelsMap[order[u]]) == order[u];
      assert Flatten(pixelsMap[order[v]]) == order[v];
    }
  }

  lemma NumberedTilesFrequencies(ws: seq<Grid>, size: nat, order: seq<seq<int>>, fingerprints: set<seq<int>>,
                                 pixelsMap: map<seq<int>, Grid>, counts: map<seq<int>, nat>, nPixels: nat,
                                 tiles: map<int, Tile>)
    requires TableInv(ws, size, fingerprints, pixelsMap, counts)
    requires NumberedBy(order, fingerprints, pixelsMap, counts, nPixels, tiles)
    ensures forall u :: u in tiles ==>
      nPixels > 0 && tiles[u].frequency == multiset(ws)[tiles[u].pixels] as real / nPixels as real
  {
    forall u | u in tiles
      ensures nPixels > 0 && tiles[u].frequency == multiset(ws)[tiles[u].pixels] as real / nPixels as real
    {
      assert 0 <= u < |order|;
      var fp := order[u];
      assert fp in counts;
      assert tiles[u] == Tile(u, pixelsMap[fp], counts[fp] as real / nPixels as real);
      assert counts[fp] == multiset(ws)[pixelsMap[fp]];
    }
  }
}
