# Overlapping-model Wave Function Collapse: tiles, adjacency and colour packing

This project is a Dafny model of the front half of the overlapping-model Wave
Function Collapse generator in the `wfc` package, with proofs about it.

1. **Tile extraction.** A palette-indexed H x W sample is cut into every K x K
   window. Windows wrap around the edges toroidally. They are deduplicated by
   their flattened fingerprint and counted. Each distinct window becomes a
   `Tile` whose frequency is its count over H * W.
2. **Adjacency candidates.** For every tile and every non-zero offset in
   `[1 - K, K - 1]²`, the adjacency table holds the set of tiles that agree
   with the first tile wherever their displaced frames overlap.
3. **Colour packing.** These helpers turn an RGB image into that indexed
   grid: red + 256 * green + 65536 * blue, its inverse, and `#rrggbb`
   formatting.
4. **The data model.** The frozen `Tile` and `Tileset` records.

Modules and files:

- `results.dfy` (`Results`): the Python exceptions the core can raise, and a
  `Result` type that carries them.
- `seq_util.dfy` (`SeqUtil`): distinct sequences and their element sets.
- `tiles.dfy` (`Tiles`): the `Tile` and `Tileset` datatypes and their derived
  properties.
- `extraction.dfy` (`Extraction`): `convert_int_tensor_to_tileset`.
  - The extraction is written as the source's nested loops, with the window
    read into an `array2`.
  - The fingerprint set and the two dictionaries are threaded through the
    loops.
  - The proof shows that the result is exactly the distinct toroidal windows
    of the sample, numbered 0..n-1, with their relative counts.
- `extraction_facts.dfy` (`ExtractionFacts`): consequences of extraction.
  - Every tile is a window and every window is a tile.
  - The number of tiles equals the number of distinct windows.
  - The frequencies sum to exactly 1.
  - Rows and columns repeat when the tile is larger than the sample.
  - A uniform sample yields a single tile.
- `candidates.dfy` (`Candidates`): `is_candidate_overlap_valid` and
  `compute_candidates`.
  - The overlap check is a method proved equal to the predicate
    `Compatible`.
  - The table builder is proved equal to the specification `CandidateTable`,
    and its counter equal to the number of table entries.
- `candidates_facts.dfy` (`CandidatesFacts`): properties of the table.
  - The compatibility check is symmetric.
  - Far offsets never conflict.
  - The (0, 0) offset compares the whole grids.
  - Each tile has (2K-1)² - 1 offset keys.
  - A tile is a candidate of another exactly when the two overlap compatibly,
    and every candidate is a tile.
- `image_tools.dfy` (`ImageTools`): `rgbtoint32`, `int32torgb`, `rgb_to_hex`
  and `convert_rgb_tensor_to_int_tensor`.

Notes on what the code does:

- **uids.** The code numbers the tiles by enumerating a Python `set` of
  fingerprints (wfc/tileset.py:58-65), so the order of the uids is
  unspecified. `NumberTiles` therefore picks an arbitrary remaining
  fingerprint each round. The proved result holds for every such numbering.
- **Palette.** The palette computed at wfc/tileset.py:31 is not returned.
  Extraction returns a plain `dict` of tiles (wfc/tileset.py:23, 67), and
  the model returns that map.
- **Tile sizes of 0 or less.** These fail only when the sample has a window
  to read:
  - with K = 0, `fingerprint` is unbound (`UnboundLocalError`);
  - with K < 0, `np.empty` raises `ValueError`;
  - on an empty sample, both return an empty map.
- **Default tile size.** `tile_size` defaults to 3 (wfc/tileset.py:28), and so
  does `tileSize` in `ConvertIntTensorToTileset`.
- **Empty images.** `np.apply_along_axis` refuses an image with no pixels,
  and the model returns that `ValueError`.
- **Short colour vectors.** `rgb_to_hex` indexes the first three entries in
  order, so a vector of m < 3 entries raises numpy's `IndexError` at index
  m. `RgbToHex` returns that error.

## Model

| member | source | states |
|---|---|---|
| `Tiles.Tile.Size` | wfc/models/tileset.py:13-15 | the size is the side length of the tile's square pixel grid, and 0 exactly for an empty grid |
| `Tiles.Tileset.NTiles` | wfc/models/tileset.py:27-29 | zero exactly when there are no tiles, positive when any uid is present |
| `Tiles.Tileset.NColors` | wfc/models/tileset.py:31-33 | zero exactly when the palette is empty, positive when it holds any colour |
| `Extraction.ConvertIntTensorToTileset` | wfc/tileset.py:26-73 | fails exactly when the sample has pixels and K ≤ 0 (`UnboundLocalError('fingerprint')` for K = 0, numpy's `ValueError` for K < 0). Otherwise the map holds the distinct K x K toroidal windows under uids 0..n-1, each with its occurrence count over H * W |
| `Extraction.TallyWindows` | wfc/tileset.py:34-56 | after the corner loops, the fingerprint set, pixel map and count map share their keys. Every window's fingerprint is stored with that window's pixels, and each count is the number of corners producing that window |
| `Extraction.TallyRow` | wfc/tileset.py:39-56 | one row of corners extends that invariant from the windows of rows < i to those of rows ≤ i |
| `Extraction.TallyWindow` | wfc/tileset.py:40-56 | one corner extends the invariant by its window: the count goes up by one, and the pixels are stored only on first sight |
| `Extraction.ReadWindow` | wfc/tileset.py:40-48 | the fresh K x K array holds at (k, l) the sample pixel at ((i + k) mod H, (j + l) mod W) |
| `Extraction.Window` | wfc/tileset.py:42-48 | a window is always K x K, whatever the sample's size |
| `Extraction.FlattenInjective` | wfc/tileset.py:49 | two K-column grids with equal fingerprints are equal, so deduplicating by fingerprint deduplicates by pixels |
| `Extraction.TableInvStep` | wfc/tileset.py:53-56 | adding a fingerprint, bumping its count and storing its pixels on first sight keeps the dictionaries in step with the windows seen |
| `Extraction.StepLookup` | wfc/tileset.py:55-56 | a fingerprint already stored maps to this very window, and a new fingerprint means a window not seen before |
| `Extraction.NumberTiles` | wfc/tileset.py:58-67 | enumerating the fingerprint set in any order gives uids 0..n-1, each fingerprint exactly once, with its stored pixels and count / H * W |
| `Extraction.EnumerationIsExtraction` | wfc/tileset.py:53-67 | any such numbering of a complete tally is the extraction result |
| `Extraction.NumberedTilesDistinct` | wfc/tileset.py:53-65 | distinct uids carry distinct pixel grids |
| `Extraction.NumberedTilesFrequencies` | wfc/tileset.py:54-62 | each tile's frequency is its window's number of occurrences over H * W |
| `ExtractionFacts.AllWindowsLength` | wfc/tileset.py:38-39 | the scan visits exactly H * W corners |
| `ExtractionFacts.InAllWindows` | wfc/tileset.py:38-48 | a grid is among the scanned windows exactly when it is the window of some corner (i, j) of the sample |
| `ExtractionFacts.ExtractedTileset` | wfc/tileset.py:58-67 | the extracted uids are exactly 0..n-1, and as a `Tileset` the tiles sit under their own uids and are all K x K |
| `ExtractionFacts.TilePixelsAreWindows` | wfc/tileset.py:38-48 | every tile is K x K, and its pixel (k, l) is the sample's pixel ((i + k) mod H, (j + l) mod W) for some corner (i, j) |
| `ExtractionFacts.WindowsAreTiles` | wfc/tileset.py:38-56 | the window at every corner is the pixel grid of some tile |
| `ExtractionFacts.TileCountIsDistinctWindows` | wfc/tileset.py:34-64 | the number of tiles is the number of distinct windows of the sample |
| `ExtractionFacts.FrequenciesSumToOne` | wfc/tileset.py:38-62 | on a sample with pixels, the frequencies of all tiles add up to exactly 1 |
| `ExtractionFacts.WindowRowsRepeat` | wfc/tileset.py:44-47 | when K exceeds H, row k of a window repeats row k - H |
| `ExtractionFacts.WindowColumnsRepeat` | wfc/tileset.py:44-47 | when K exceeds W, column l of a window repeats column l - W |
| `ExtractionFacts.UniformGridOneTile` | wfc/tileset.py:38-67 | a non-empty one-colour sample with K = 1 yields exactly one tile, uid 0, frequency 1 |
| `Candidates.IsCandidateOverlapValid` | wfc/candidates.py:14-56 | true exactly when, at every cell (x1, y1) of `a` whose displaced position lies inside the K x K frame (K being `a`'s size), `a`'s pixel equals `b`'s displaced pixel |
| `Candidates.OffsetRange` | wfc/candidates.py:74 | holds exactly the integers x with 1 - K ≤ x < K, in strictly increasing order |
| `Candidates.Pairs` | wfc/candidates.py:75-77 | the list of offset pairs has one entry per pair of axis values |
| `Candidates.ComputeCandidates` | wfc/candidates.py:59-104 | the table is `CandidateTable`: one entry per tile id, each keyed by the non-zero offsets and holding the compatible tile ids. The counter is the total number of (tile, offset, candidate) entries |
| `Candidates.FillTileCandidates` | wfc/candidates.py:83-98 | the offset loop builds exactly one tile's row of the table, skipping (0, 0), and adds its entry count to the counter. It leaves the local `tile` as it found it exactly when there is no non-zero offset; otherwise `tile` ends bound to the current tile |
| `Candidates.FillOffsetCandidates` | wfc/candidates.py:89-96 | the candidate loop collects exactly the compatible tile ids, counting each one, and leaves the local `tile` bound to the current tile (line 92) |
| `Candidates.ComputeCandidatesAsWritten` | wfc/candidates.py:59-104 | the loops as written, with `tile` unbound at the start and carried from one tile to the next. Storing the row under `tile.uid` (line 100) raises `UnboundLocalError('tile')` exactly when there are tiles and K < 2. Otherwise, on a tileset keyed by uid, the result is the adjacency table and the counter is its number of entries |
| `Candidates.OffsetKeysNonEmpty` | wfc/candidates.py:74-87 | some listed offset other than (0, 0) exists exactly when K ≥ 2, so the candidate loop runs for some offset exactly then |
| `Candidates.OffsetsDistinct` | wfc/candidates.py:74-77 | no offset is listed twice |
| `Candidates.PairsMembership` | wfc/candidates.py:75-77 | an offset is in the list exactly when each component is in the axis range |
| `CandidatesFacts.CompatibleSymmetric` | wfc/candidates.py:42-54 | laying `b` at (dx, dy) from `a` is compatible exactly when laying `a` at (-dx, -dy) from `b` is |
| `CandidatesFacts.FarOffsetCompatible` | wfc/candidates.py:47-48 | with \|dx\| ≥ K or \|dy\| ≥ K the frames do not overlap and any two tiles are compatible |
| `CandidatesFacts.ZeroOffsetIsEquality` | wfc/candidates.py:42-54 | at offset (0, 0) two tiles are compatible exactly when their pixel grids are equal |
| `CandidatesFacts.SelfCompatible` | wfc/candidates.py:42-54 | every tile is compatible with itself at (0, 0) |
| `CandidatesFacts.OffsetsMembership` | wfc/candidates.py:74-77 | the offset list holds exactly the pairs with both components in [1 - K, K - 1] |
| `CandidatesFacts.OffsetKeysCount` | wfc/candidates.py:63-87 | the table's offset keys exclude (0, 0) and number (2K - 1)² - 1 for K ≥ 1, none otherwise |
| `CandidatesFacts.TableShape` | wfc/candidates.py:82-100 | the table has one entry per tile id, and each entry is keyed by exactly the non-zero offsets |
| `CandidatesFacts.TableMembership` | wfc/candidates.py:89-98 | `b` is in `table[a][o]` exactly when the overlap check accepts tile `b` at `o` from tile `a` |
| `CandidatesFacts.CandidatesAreTiles` | wfc/candidates.py:91-95 | every candidate id in every set is a tile id of the tileset |
| `CandidatesFacts.TableSymmetric` | wfc/candidates.py:85-98 | (-dx, -dy) is an offset key whenever (dx, dy) is, and `b` is in `table[a][(dx, dy)]` exactly when `a` is in `table[b][(-dx, -dy)]` |
| `CandidatesFacts.UnitTilesHaveNoOffsets` | wfc/candidates.py:74-87 | with K ≤ 1 every tile's entry is empty, since the only offset is the skipped (0, 0) |
| `CandidatesFacts.AsWrittenFailsOnUnitTiles` | wfc/candidates.py:92-100 | one 1 x 1 tile makes the source raise, where the intended table is a single empty entry |
| `ImageTools.RgbToInt32` | wfc/image_tools.py:27-31 | folding the reversed channels gives red + 256 * green + 65536 * blue. For bytes the result lies in [0, 2^24) |
| `ImageTools.PackTriple` | wfc/image_tools.py:27-31 | the packing of a triple puts red in the low byte and blue in the high byte |
| `ImageTools.PackBounds` | wfc/image_tools.py:27-31 | packing n bytes gives a value in [0, 256^n) |
| `ImageTools.Int32ToRgb` | wfc/image_tools.py:34-39 | reading `color_int`, three bytes are taken low byte first, and they pack back to any value in [0, 2^24) |
| `ImageTools.Unpack` | wfc/image_tools.py:34-39 | unpacking yields n values, each a byte |
| `ImageTools.UnpackOfPack` | wfc/image_tools.py:27-39 | unpacking the packing of n bytes returns them |
| `ImageTools.PackOfUnpack` | wfc/image_tools.py:27-39 | packing the unpacked bytes of a value in [0, 256^n) returns it |
| `ImageTools.RgbRoundTrip` | wfc/image_tools.py:27-39 | `int32torgb(rgbtoint32([r, g, b])) == [r, g, b]` for bytes |
| `ImageTools.Int32ToRgbAsWritten` | wfc/image_tools.py:34-39 | as written, every call raises `UnboundLocalError('color')` on the first pass of the loop, before anything is appended |
| `ImageTools.Int32ToRgbAsWrittenBreaksRoundTrip` | wfc/image_tools.py:27-39 | as written, `int32torgb(rgbtoint32([r, g, b]))` is never `[r, g, b]` for any byte triple: the round trip that `ImageTools.RgbRoundTrip` proves for the corrected function fails |
| `ImageTools.Format02x` | wfc/image_tools.py:24 | `%02x` of a byte is its two lowercase hexadecimal digits, high digit first |
| `ImageTools.RgbToHex` | wfc/image_tools.py:22-24 | fails exactly when the vector has fewer than 3 entries, with numpy's `IndexError` at the first missing index. Otherwise a byte triple is formatted as '#' and two lowercase digits per channel, red first |
| `ImageTools.RgbToHexOfTriple` | wfc/image_tools.py:22-24 | a three-byte vector formats without error as '#' and its three digit pairs |
| `ImageTools.HexRoundTrip` | wfc/image_tools.py:22-24 | a byte triple formats without error, and the `#rrggbb` text reads back to the three bytes |
| `ImageTools.HexPairValue` | wfc/image_tools.py:24 | the two digits of a byte read back to the byte |
| `ImageTools.RgbToHexExtremes` | tests/test_image_tools.py:34-35 | (0, 0, 0) gives "#000000" and (255, 255, 255) gives "#ffffff" |
| `ImageTools.RgbToHexMixed` | tests/test_image_tools.py:36 | (25, 56, 123) gives "#19387b" |
| `ImageTools.RgbToHexPadded` | tests/test_image_tools.py:37 | (2, 3, 4) gives "#020304", each channel zero-padded to two digits |
| `ImageTools.ConvertRgbTensorToIntTensor` | wfc/image_tools.py:42-48 | fails exactly when the pixels do not have 3 channels (the source's `ValueError`) or the image has no pixel. Otherwise it keeps the H x W shape and packs pixel (i, j) as red + 256 * green + 65536 * blue |
| `ImageTools.ConvertRoundTrip` | wfc/image_tools.py:42-48 | every packed pixel of a byte image unpacks to its original channels |

## Left out

- The image loaders `load_image_to_rgb_tensor` and `load_image_to_int_tensor`
  (wfc/image_tools.py:10-19, 51-54) read files through OpenCV. These are I/O
  and a foreign library.
- `convert_int_tensor_to_rgb_tensor` (wfc/image_tools.py:57-62) is a wrapper
  around numpy's `vectorize`.
  - Its per-pixel function is `int32torgb`, which is modelled.
  - Its rank check is not modelled.
- wfc/wfc_2d.py and wfc/main.py are not part of this model. They are
  pipeline and command-line glue, and the collapse/propagate solver exists
  there only as commented-out lines. `wfc_2d` passes the plain dict
  returned by extraction to `compute_candidates`, which reads `tile_size`
  from a `Tileset` record. The model's `ComputeCandidates` takes the record.
- All `structlog` logging is left out.
  - Of the sizes logged at wfc/candidates.py:63-72, only
    `n_adjacency_positions` (line 63) appears, as the offset-key count of
    `CandidatesFacts.OffsetKeysCount`.
  - `n_potential_candidates_per_tile` and `n_potential_candidates` (lines 66
    and 71) are not modelled.
  - The running counter `n_candidiates`, which is only logged, is returned
    as a second out-parameter of `ComputeCandidates`.
- The WILDCARD branch in the docstring of `is_candidate_overlap_valid` is
  left out. It is text in a string and is never executed.
- Colours are unbounded integers, so numpy's `int32` pixel dtype and its
  wrap-around are not modelled.
- Frequencies are exact reals, so floating-point rounding of
  `count / n_pixels` is not modelled.
- Images are sequences, and a tensor's rank is not representable.
  - `ConvertRgbTensorToIntTensor` takes the channel count as a parameter.
  - The `ndim != 3` branch of wfc/image_tools.py:44 is therefore covered only
    through a wrong channel count.
- `Tiles.Tile` and `Tiles.Tileset` are immutable datatype values.
  - The frozen-dataclass behaviour needs no further statement.
  - Hashing a `Tile` by its uid alone (wfc/models/tileset.py:17-18) is not
    modelled: no code puts tiles with equal uids and different pixels in one
    set.
- The duplicate `Tile` class at wfc/tileset.py:9-20 is modelled by the same
  `Tiles.Tile` datatype.
- The palette that extraction computes and discards (wfc/tileset.py:31) is
  not modelled.
- The source recomputes the fingerprint after every pixel write, inside the
  innermost loop (wfc/tileset.py:49). Only the last value is used, so the
  model computes it once per window.
- `Candidates.ComputeCandidatesAsWritten` requires that every tile sits under
  its own uid. The source does not demand this. Extraction always produces
  such tilesets (`ExtractionFacts.ExtractedTileset`). Without it, the model
  would have to capture two things:
  - two tiles with the same uid: the row stored last wins, so the result
    depends on Python's dict iteration order;
  - rows alias. `candidiates.get(tile_id, {})` finds the row already stored
    under a uid equal to `tile_id`, so two tiles' rows merge into one dictionary
    object and the counter counts more entries than the table holds. For
    example, tiles `{0: uid 1, 1: uid 5}` do this.
- `Tiles.Tileset.NTiles` promises only that the count is zero exactly for
  an empty map. That it is the number of entries is its definition.
- `Tiles.Tileset.NColors` promises only that the count is zero exactly for
  an empty palette. That it is the number of colours is its definition.
- The lookups `candidiates.get(tile_id, {})` and
  `tile_candidiates.get(offset, set())` always fall back to a fresh empty
  value when each tile sits under its own uid, or when rows are keyed by
  `tile_id` as in `Candidates.ComputeCandidates`. Then every tile id and
  every offset is visited once and never found already stored. The model
  starts from empty values directly.

## Findings

| source | as written | input that shows it | evidently intended | confidence | as-written member | corrected member |
|---|---|---|---|---|---|---|
| wfc/image_tools.py:37 | `int32torgb` reads the local `color` before any assignment, so every call raises `UnboundLocalError` | any value, e.g. `int32torgb(0)` | read the parameter `color_int` and shift it, giving `[R, G, B]` low byte first | high; not executed | `ImageTools.Int32ToRgbAsWrittenBreaksRoundTrip` | `ImageTools.RgbRoundTrip` |
| wfc/candidates.py:100 | the row is stored under `tile.uid`, where `tile` is only bound inside the innermost loop. With K = 1 the only offset (0, 0) is skipped, `tile` is never bound, and the first store raises `UnboundLocalError` | a tileset with tile size 1 and one tile | store the row under the loop's `tile_id`, giving an empty entry per tile | high; not executed | `CandidatesFacts.AsWrittenFailsOnUnitTiles` | `Candidates.ComputeCandidates` |
