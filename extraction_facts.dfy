/** What an extraction promises about its tiles: they are windows of the
    sample, there is one per distinct window, their frequencies add up to
    one, and the small cases the tileset builder is expected to handle. */
module ExtractionFacts {
  import opened Tiles
  import opened SeqUtil
  import opened Extraction

  lemma {:induction false} WindowsBeforeLength(s: Grid, size: nat, i: nat)
    requires IsRect(s) && i <= |s|
    ensures |WindowsBefore(s, size, i)| == i * Width(s)
  {
    if i > 0 {
      WindowsBeforeLength(s, size, i - 1);
    }
  }

  /** One window per corner: H * W windows in all. */
  lemma AllWindowsLength(s: Grid, size: nat)
    requires IsRect(s)
    ensures |AllWindows(s, size)| == Area(s)
  {
    WindowsBeforeLength(s, size, |s|);
  }

  lemma {:induction false} InWindowsBefore(s: Grid, size: nat, i: nat, w: Grid)
    requires IsRect(s) && i <= |s|
    ensures w in WindowsBefore(s, size, i) <==>
      exists a, b :: 0 <= a < i && 0 <= b < Width(s) && w == Window(s, a, b, size)
  {
    if i > 0 {
      InWindowsBefore(s, size, i - 1, w);
      var row := RowWindows(s, size, i - 1);
      if w in row {
        var b :| 0 <= b < |row| && row[b] == w;
        assert w == Window(s, i - 1, b, size);
      }
      var a := i - 1;
      if exists b :: 0 <= b < Width(s) && w == Window(s, a, b, size) {
        var b :| 0 <= b < Width(s) && w == Window(s, a, b, size);
        assert row[b] == w;
      }
    }
  }

  /** A grid is among the windows exactly when some corner of the sample
      produces it. */
  lemma InAllWindows(s: Grid, size: nat, w: Grid)
    requires IsRect(s)
    ensures w in AllWindows(s, size) <==>
      exists i, j :: 0 <= i < |s| && 0 <= j < Width(s) && w == Window(s, i, j, size)
  {
    InWindowsBefore(s, size, |s|, w);
  }

  /** Every tile is stored under its own uid, the uids are 0..n-1, and each
      tile is a `size` x `size` grid: an extraction is a well-formed tileset. */
  lemma ExtractedTileset(s: Grid, size: nat, tiles: map<int, Tile>)
    requires IsRect(s) && ExtractedFrom(s, size, tiles)
    ensures forall u :: u in tiles <==> 0 <= u < |tiles|
    ensures Tileset(size, tiles, {}).KeyedByUid()
    ensures Tileset(size, tiles, {}).AllSquare()
  {
    forall u | u in tiles
      ensures IsSquare(tiles[u].pixels, size)
    {
      InAllWindows(s, size, tiles[u].pixels);
    }
  }

  /** Every cell (k, l) of `g` is the sample pixel at ((i + k) mod H,
      (j + l) mod W). */
  ghost predicate ReadsAt(s: Grid, g: Grid, i: int, j: int)
    requires IsRect(s) && 0 <= i < |s| && 0 <= j < Width(s)
  {
    forall k, l :: 0 <= k < |g| && 0 <= l < |g[k]| ==> g[k][l] == s[(i + k) % |s|][(j + l) % Width(s)]
  }

  /** Each tile is a K x K grid whose pixel (k, l) is the sample pixel at
      ((i + k) mod H, (j + l) mod W) for one corner (i, j) of the sample. */
  lemma TilePixelsAreWindows(s: Grid, size: nat, tiles: map<int, Tile>, u: int)
    requires IsRect(s) && ExtractedFrom(s, size, tiles) && u in tiles
    ensures IsSquare(tiles[u].pixels, size)
    ensures exists i, j :: 0 <= i < |s| && 0 <= j < Width(s) && ReadsAt(s, tiles[u].pixels, i, j)
  {
    InAllWindows(s, size, tiles[u].pixels);
    var i, j :| 0 <= i < |s| && 0 <= j < Width(s) && tiles[u].pixels == Window(s, i, j, size);
    assert ReadsAt(s, tiles[u].pixels, i, j);
  }

  /** Every window of the sample is the pixel grid of one tile. */
  lemma WindowsAreTiles(s: Grid, size: nat, tiles: map<int, Tile>, i: int, j: int)
    requires IsRect(s) && ExtractedFrom(s, size, tiles)
    requires 0 <= i < |s| && 0 <= j < Width(s)
    ensures exists u :: u in tiles && tiles[u].pixels == Window(s, i, j, size)
  {
    InAllWindows(s, size, Window(s, i, j, size));
  }

  /** The pixel grids of the tiles, in uid order. */
  ghost function TileGrids(tiles: map<int, Tile>): (ps: seq<Grid>)
    requires forall u :: u in tiles <==> 0 <= u < |tiles|
    ensures |ps| == |tiles|
  {
    seq(|tiles|, u requires 0 <= u < |tiles| => tiles[u].pixels)
  }

  lemma TileGridsOfWindows(ws: seq<Grid>, nPixels: nat, tiles: map<int, Tile>)
    requires TilesOfWindows(ws, nPixels, tiles)
    ensures Distinct(TileGrids(tiles))
    ensures Elems(TileGrids(tiles)) == Elems(ws)
  {
    var ps := TileGrids(tiles);
    forall w | w in Elems(ws)
      ensures w in Elems(ps)
    {
      var u :| u in tiles && tiles[u].pixels == w;
      assert ps[u] == w;
    }
  }

  /** There are exactly as many tiles as distinct windows. */
  lemma TileCountIsDistinctWindows(s: Grid, size: nat, tiles: map<int, Tile>)
    requires IsRect(s) && ExtractedFrom(s, size, tiles)
    ensures |tiles| == |Elems(AllWindows(s, size))|
  {
    TileGridsOfWindows(AllWindows(s, size), Area(s), tiles);
    DistinctCard(TileGrids(tiles));
  }

  /** The total number of occurrences in `m` of the grids listed in `ps`. */
  ghost function CountIn(ps: seq<Grid>, m: multiset<Grid>): nat
  {
    if ps == [] then 0 else CountIn(ps[..|ps| - 1], m) + m[ps[|ps| - 1]]
  }

  lemma {:induction false} CountInAdd(ps: seq<Grid>, m: multiset<Grid>, w: Grid)
    requires Distinct(ps)
    ensures CountIn(ps, m + multiset{w}) == CountIn(ps, m) + (if w in ps then 1 else 0)
  {
    if ps != [] {
      var init := ps[..|ps| - 1];
      assert Distinct(init);
      CountInAdd(init, m, w);
      assert w in ps <==> w in init || w == ps[|ps| - 1];
      assert ps[|ps| - 1] !in init;
    }
  }

  /** Listing every grid of `ws` once counts each entry of `ws` once. */
  lemma {:induction false} CountInAll(ps: seq<Grid>, ws: seq<Grid>)
    requires Distinct(ps)
    requires forall w :: w in ws ==> w in ps
    ensures CountIn(ps, multiset(ws)) == |ws|
  {
    if ws == [] {
      CountInEmpty(ps);
    } else {
      var init := ws[..|ws| - 1];
      CountInAll(ps, init);
      assert ws == init + [ws[|ws| - 1]];
      CountInAdd(ps, multiset(init), ws[|ws| - 1]);
    }
  }

  lemma {:induction false} CountInEmpty(ps: seq<Grid>)
    ensures CountIn(ps, multiset{}) == 0
  {
    if ps != [] {
      CountInEmpty(ps[..|ps| - 1]);
    }
  }

  /** The sum of the frequencies of the tiles with uids 0..n-1. */
  ghost function TotalFrequency(tiles: map<int, Tile>, n: nat): real
    requires forall u :: 0 <= u < n ==> u in tiles
  {
    if n == 0 then 0.0 else TotalFrequency(tiles, n - 1) + tiles[n - 1].frequency
  }

  lemma DivAdd(a: real, b: real, d: real)
    requires d > 0.0
    ensures a / d + b / d == (a + b) / d
  {
  }

  lemma DivSelf(d: real)
    requires d > 0.0
    ensures d / d == 1.0
  {
  }

  lemma {:induction false} TotalFrequencyIsCount(ps: seq<Grid>, m: multiset<Grid>, nPixels: nat,
                                                 tiles: map<int, Tile>, n: nat)
    requires n <= |ps| && nPixels > 0
    requires forall u :: 0 <= u < n ==>
      u in tiles && tiles[u].frequency == m[ps[u]] as real / nPixels as real
    ensures TotalFrequency(tiles, n) == CountIn(ps[..n], m) as real / nPixels as real
  {
    if n > 0 {
      TotalFrequencyIsCount(ps, m, nPixels, tiles, n - 1);
      assert ps[..n][..n - 1] == ps[..n - 1];
      DivAdd(CountIn(ps[..n - 1], m) as real, m[ps[n - 1]] as real, nPixels as real);
    }
  }

  /** Each window is counted once, so the frequencies of a non-empty
      sample's tiles add up to exactly one. */
  lemma FrequenciesSumToOne(s: Grid, size: nat, tiles: map<int, Tile>)
    requires IsRect(s) && ExtractedFrom(s, size, tiles) && Area(s) > 0
    ensures TotalFrequency(tiles, |tiles|) == 1.0
  {
    var ws := AllWindows(s, size);
    TileGridsOfWindows(ws, Area(s), tiles);
    var ps := TileGrids(tiles);
    assert ps[..|tiles|] == ps;
    TotalFrequencyIsCount(ps, multiset(ws), Area(s), tiles, |tiles|);
    forall w | w in ws
      ensures w in ps
    {
      assert w in Elems(ws);
    }
    CountInAll(ps, ws);
    AllWindowsLength(s, size);
    DivSelf(Area(s) as real);
  }

  lemma MulNonneg(n: int, t: int)
    requires n > 0 && t >= 0
    ensures n * t >= 0
  {
  }

  lemma MulZero(n: int, t: int)
    requires n > 0 && -n < n * t < n
    ensures t == 0
  {
    if t >= 1 {
      assert n * t == n * (t - 1) + n;
      MulNonneg(n, t - 1);
    } else if t <= -1 {
      assert n * t == -(n * -(t + 1)) - n;
      MulNonneg(n, -(t + 1));
    }
  }

  /** Reading one period further along wraps back to the same cell. */
  lemma ModAddPeriod(x: int, n: int)
    requires n > 0
    ensures (x + n) % n == x % n
  {
    var q, r := x / n, x % n;
    var q', r' := (x + n) / n, (x + n) % n;
    assert x == n * q + r;
    assert x + n == n * q' + r';
    assert n * (q' - q - 1) == r - r' by {
      assert n * (q' - q - 1) == n * q' - n * q - n;
    }
    MulZero(n, q' - q - 1);
  }

  /** A tile taller than the sample is not an error: its rows repeat with
      period H. */
  lemma WindowRowsRepeat(s: Grid, i: int, j: int, size: nat, k: int)
    requires IsRect(s) && 0 <= i < |s| && 0 <= j < Width(s)
    requires |s| <= k < size
    ensures Window(s, i, j, size)[k] == Window(s, i, j, size)[k - |s|]
  {
    ModAddPeriod(i + (k - |s|), |s|);
  }

  /** A tile wider than the sample is not an error: its columns repeat with
      period W. */
  lemma WindowColumnsRepeat(s: Grid, i: int, j: int, size: nat, k: int, l: int)
    requires IsRect(s) && 0 <= i < |s| && 0 <= j < Width(s)
    requires 0 <= k < size && Width(s) <= l < size
    ensures Window(s, i, j, size)[k][l] == Window(s, i, j, size)[k][l - Width(s)]
  {
    ModAddPeriod(j + (l - Width(s)), Width(s));
  }

  /** Every pixel of `s` is `c`. */
  predicate Uniform(s: Grid, c: int)
  {
    forall r, col :: 0 <= r < |s| && 0 <= col < |s[r]| ==> s[r][col] == c
  }

  lemma UniformWindows(s: Grid, c: int)
    requires IsRect(s) && Uniform(s, c)
    ensures forall w :: w in AllWindows(s, 1) ==> w == [[c]]
  {
    forall w | w in AllWindows(s, 1)
      ensures w == [[c]]
    {
      InAllWindows(s, 1, w);
      var i, j :| 0 <= i < |s| && 0 <= j < Width(s) && w == Window(s, i, j, 1);
      UniformWindow(s, c, i, j);
    }
  }

  lemma UniformWindow(s: Grid, c: int, i: int, j: int)
    requires IsRect(s) && Uniform(s, c) && 0 <= i < |s| && 0 <= j < Width(s)
    ensures Window(s, i, j, 1) == [[c]]
  {
    var w := Window(s, i, j, 1);
    ModSmall(i, |s|);
    ModSmall(j, Width(s));
    assert w[0][0] == s[i][j] == c;
    assert w[0] == [c];
  }

  /** An index already inside the period is its own remainder. */
  lemma ModSmall(x: int, n: int)
    requires 0 <= x < n
    ensures x % n == x
  {
    var q, r := x / n, x % n;
    assert x == n * q + r;
    MulZero(n, q);
  }

  /** A non-empty one-colour sample cut into 1 x 1 tiles gives a single tile,
      uid 0, with frequency one. */
  lemma UniformGridOneTile(s: Grid, c: int, tiles: map<int, Tile>)
    requires IsRect(s) && Area(s) > 0 && Uniform(s, c)
    requires ExtractedFrom(s, 1, tiles)
    ensures tiles == map[0 := Tile(0, [[c]], 1.0)]
  {
    var ws := AllWindows(s, 1);
    UniformWindows(s, c);
    AllWindowsLength(s, 1);
    OnlyTile(ws, Area(s), c, tiles);
  }

  lemma OnlyTile(ws: seq<Grid>, nPixels: nat, c: int, tiles: map<int, Tile>)
    requires TilesOfWindows(ws, nPixels, tiles)
    requires forall w :: w in ws ==> w == [[c]]
    requires |ws| == nPixels > 0
    ensures tiles == map[0 := Tile(0, [[c]], 1.0)]
  {
    assert ws[0] in ws;
    assert 0 in tiles;
    assert 1 !in tiles;
    assert |tiles| == 1;
    assert forall u :: u in tiles <==> u == 0;
    assert tiles.Keys == {0};
    CountInAll([[[c]]], ws);
    assert CountIn([[[c]]], multiset(ws)) == multiset(ws)[[[c]]];
    DivSelf(nPixels as real);
  }
}
