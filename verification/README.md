# pathmap in Dafny

A model of the computational core of pathmap. pathmap turns a GPS track into printable map pages. Its core:

- splits the track, in tile coordinates, into "bites" whose pixel bounding box fits a page;
- builds each bite's map from rectangular tile mosaics, one per segment;
- may rotate a bite to lower its height.

Around this the map sources parse URL query strings and name their tile cache files. Both are modelled too.

Modules, each with its own file:

- `Outcomes` (outcomes.dfy): `Option` and `Result`.
- `Numeric` (numeric.dfy): Python's `int()` on floats (`Trunc`, truncation toward zero), `ToPixels`, min/max/abs and squares.
- `Corridor` (corridor.dfy): the chunking loop of `path_surroundings`.
  - The source's stack is the reversed path, popped from the end. Here it is a sequence whose front is the top.
  - `Subdivide` is the midpoint loop, `Grow` the inner loop and `Chunk` the outer loop.
  - `sqrt(d) > maxdist_pix` is stated as `d > maxdist_pix²`.
- `Refinement` (refinement.dfy): the reference `Refine`, i.e. the path with every overlong gap bisected, and its properties.
- `Chunking` (chunking.dfy): what the chunker guarantees about the bites it emits.
- `Tiles` (tiles.dfy): `MapDownloader.get_rect_tiles`: which tiles are requested, in what order, and where each one is pasted.
- `Segments` (segments.dfy): each segment's sub-box, and where its mosaic is pasted in the bite canvas.
- `Orientation` (orientation.dfy): the angle search of `_best_angle`, and the corner choice and crop box of `_crop_after_rotation`.
- `Strings` (strings.dfy): `str.split`, `str.split(c, 1)`, `join`, `str()` of integers and `int()` of the decimal strings `str()` produces.
- `UrlQuery` (urlquery.dfy): the guarded `_url2dict` of mapycz and the unguarded `_url2dict`/`url2dict` of cykloserver and the top-level getmap.py. Python exceptions become `Err(ValueError)` and `Err(IndexError)`.
- `TileNames` (tilenames.dfy): the `mapycz_{x}_{y}.png` and `tile_{x}_{y}.png` cache names.

The chunker is modelled under a progress condition, `Corridor.Progresses`:

- `xres > 0`;
- `maxdist_pix > 0`;
- `maxdist_pix + 2*radius_pix` fits both `maxwidth_pix` and `maxheight_pix`.

The condition is sufficient for termination, not necessary: outside it the source still ends on many paths (a path of at most one point, or one whose refined gaps all leave room in the limits). It may fail to terminate on some paths, in two ways:

- with `maxdist_pix < 0` the midpoint loop (line 141) never ends; with `maxdist_pix = 0` it never ends on two distinct consecutive points;
- a one-point bite whose next point is within `maxdist_pix` but overflows a limit ends at once. Line 158 pushes the bite's own point back on the stack, and line 133 pops it again as the start of the next bite. That bite starts from the same point, box and stack, so the same one-point bite is produced for ever (`Chunking.OverflowRepeats`).

## Model

| member | source | states |
|---|---|---|
| Corridor.MidQuarters | pathmap/getmap.py:121-122 | halving a segment divides its squared pixel distance by four on each half |
| Corridor.StepsShrink | pathmap/getmap.py:141-142 | the midpoint loop's measure strictly drops on both halves of an overlong gap, so the loop ends when maxdist_pix > 0 |
| Corridor.Subdivide | pathmap/getmap.py:141-142 | the midpoint loop never shortens the stack, and it stops with a top of stack within maxdist_pix of the bite's last point |
| Corridor.SubdivideOnlyPushes | pathmap/getmap.py:141-142 | the midpoint loop only pushes: the stack it started from lies untouched below the pushed points |
| Corridor.SubdividePushesMidpoints | pathmap/getmap.py:141-142 | each pushed point is the midpoint of the bite's last point and the point beneath it |
| Corridor.SubdivideRefines | pathmap/getmap.py:141-142 | pushing midpoints leaves the refined remainder still to be consumed unchanged |
| Corridor.MinOf | pathmap/getmap.py:147-150 | the least coordinate of a bite is at most every coordinate and is one of them |
| Corridor.MaxOf | pathmap/getmap.py:147-150 | the greatest coordinate of a bite is at least every coordinate and is one of them |
| Corridor.ExtendBox | pathmap/getmap.py:147-150 | widening a bite's box by a new point's radius gives the box of the longer bite |
| Corridor.TwoPointSpan | pathmap/getmap.py:119-120 | the pixel length of two coordinates' box, widened by the radius, is their pixel gap plus 2*radius_pix |
| Corridor.AxisGaps | pathmap/getmap.py:121-122 | two points within maxdist_pix are within it on each axis |
| Corridor.TwoPointFits | pathmap/getmap.py:145-153 | a gap of at most maxdist_pix keeps a one-point box widened by the next point within a limit of maxdist_pix + 2*radius_pix |
| Corridor.OnePointFitsX | pathmap/getmap.py:153 | under the progress condition a one-point bite's trial width fits maxwidth_pix |
| Corridor.OnePointFitsY | pathmap/getmap.py:153 | under the progress condition a one-point bite's trial height fits maxheight_pix |
| Corridor.OnePointBiteAccepts | pathmap/getmap.py:153-163 | under the progress condition a one-point bite never rejects its next point |
| Corridor.SubdivideHead | pathmap/getmap.py:141-147 | after the midpoint loop, the top of the stack is the next point of the refined remainder |
| Corridor.Grow | pathmap/getmap.py:139-163 | the inner loop only appends to the bite: the bite it started from is a prefix of the bite it stops with (its other guarantees are the Grow* lemmas) |
| Corridor.GrowStackShape | pathmap/getmap.py:139-159 | the loop stops with an empty stack, or with the bite's last point pushed back on top of at least one more point |
| Corridor.GrowConsumes | pathmap/getmap.py:139-163 | the bite followed by the refined rest of the stack is the same sequence before and after the inner loop |
| Corridor.GrowProgress | pathmap/getmap.py:133-163 | under the progress condition a fresh bite with points left takes at least one more point |
| Corridor.ChunkShrinks | pathmap/getmap.py:129-163 | what remains after a bite is strictly less refined work than before, so the outer loop ends |
| Corridor.Chunk | pathmap/getmap.py:128-163 | the outer loop ends under the progress condition (its measure is the refined work left, see Corridor.ChunkShrinks); it yields bites exactly for a non-empty path, and no bite is empty |
| Refinement.BisectOnSegment | pathmap/getmap.py:141-142 | every synthesized point lies strictly inside the segment it refines |
| Refinement.BisectClose | pathmap/getmap.py:141-142 | after bisection every gap is within the distance limit |
| Refinement.RefineClose | pathmap/getmap.py:141-142 | every gap of the refined path is within the distance limit |
| Refinement.RefineIdentity | pathmap/getmap.py:141-142 | a path whose gaps are all within the limit gets no midpoints |
| Refinement.RefineKeepsPath | pathmap/getmap.py:128-142 | the refined path holds the original points in order and starts and ends where the path does |
| Chunking.GrowKeepsBox | pathmap/getmap.py:136-137 | the inner loop keeps each range equal to [min − radius, max + radius] over the bite |
| Chunking.GrowKeepsLimits | pathmap/getmap.py:147-163 | a bite of two or more points always fits maxwidth_pix and maxheight_pix |
| Chunking.GrowKeepsClose | pathmap/getmap.py:141-142 | neighbours in a bite are within maxdist_pix of each other |
| Chunking.GrowStopsOnOverflow | pathmap/getmap.py:151-159 | the inner loop stops early only when the next point is close enough but would push the box over a limit |
| Chunking.GrowTakesHead | pathmap/getmap.py:141-161 | the first point a bite takes is the top of the stack left by the midpoint loop |
| Chunking.FirstBiteOk | pathmap/getmap.py:129-163 | the first bite is non-empty, close, fits the limits when it has two points, and its ranges are its box |
| Chunking.ChunkBitesOk | pathmap/getmap.py:129-163 | every emitted bite is non-empty, close, fits the limits when it has two points, and its ranges are its box |
| Chunking.ChunkLinks | pathmap/getmap.py:128-159 | no bites exactly for an empty path; the first bite starts at the path's first point; each bite's last point starts the next |
| Chunking.ChunkMaximal | pathmap/getmap.py:151-159 | a bite is closed only when the next bite's second point was close enough but would overflow the box |
| Chunking.NextBiteSecond | pathmap/getmap.py:139-161 | when the first two path points are close, the first bite takes the second point |
| Chunking.ChunkReassembles | pathmap/getmap.py:128-163 | the bites joined, with each shared boundary point kept once, give the path with only midpoints inserted |
| Chunking.StackTopIsPathHead | pathmap/getmap.py:128-133 | popping the end of the reversed list is taking the front of the path, and appending to the list is prepending |
| Chunking.OverflowRepeats | pathmap/getmap.py:133-159 | outside the progress condition, a one-point bite whose next point overflows pushes its own point back, and the next bite starts from exactly the same state, so the source repeats that bite for ever |
| Chunking.WideRadiusRepeats | pathmap/getmap.py:88-92 | with the default limits and radius_pix = 200, a 448-pixel vertical gap makes a one-point bite repeat for ever |
| Segments.Least4 | pathmap/getmap.py:174-175 | the first of the four sorted values is one of them and at most each |
| Segments.Greatest4 | pathmap/getmap.py:174-175 | the last of the four sorted values is one of them and at least each |
| Segments.SegmentBox | pathmap/getmap.py:174-175 | a segment's box, the first and last of the four sorted values, is [min(last, p) − \|radius\|, max(last, p) + \|radius\|] on each axis |
| Segments.ScaledInside | pathmap/getmap.py:202 | a range inside another keeps a non-negative pixel offset and ends inside it after scaling and truncation |
| Segments.SegmentInsideBox | pathmap/getmap.py:174-175 | a segment's box lies inside its bite's box |
| Segments.PasteOffset | pathmap/getmap.py:202 | the paste offset is zero where the segment box starts at the bite box's corner, and non-negative where it starts right of or below it |
| Segments.CanvasSize | pathmap/getmap.py:153-166 | the bite canvas fits maxwidth_pix by maxheight_pix exactly when the limit test of line 153 passes on the bite box, and it is never negative for an ordered box |
| Segments.PasteOffsetInCanvas | pathmap/getmap.py:202 | the paste offset is non-negative and the segment mosaic ends inside the canvas, vertically when tiles are square |
| Segments.BitePasteInCanvas | pathmap/getmap.py:166-202 | for radius_pix >= 0, every segment of an emitted bite is pasted at a non-negative offset and its mosaic ends inside the bite canvas horizontally, and vertically when tiles are square |
| Tiles.SpanIs | pathmap/getmap.py:71 | range(lo, hi+1) holds lo..hi in order |
| Tiles.SpanIncreasing | pathmap/getmap.py:71 | range(lo, hi+1) is strictly increasing and holds exactly lo..hi |
| Tiles.GridMembers | pathmap/getmap.py:71 | a tile is in the comprehension exactly when its row and column are in the two ranges |
| Tiles.GridLength | pathmap/getmap.py:71 | the comprehension has rows × columns tiles |
| Tiles.GridRowMajor | pathmap/getmap.py:71 | the comprehension is in row-major order, y outer, with no repeats |
| Tiles.TilesNeeded | pathmap/getmap.py:61-71 | a tile is requested exactly when floor(x1) ≤ x ≤ floor(x2) and floor(y1) ≤ y ≤ floor(y2) |
| Tiles.TilesNeededOrder | pathmap/getmap.py:61-71 | the requested tiles come in row-major order, each once, columns × rows of them |
| Tiles.Offset | pathmap/getmap.py:66-67 | 0 ≤ xdiff_pix < xres: the corner lies inside its tile |
| Tiles.PastePos | pathmap/getmap.py:77-83 | with positive tile sizes, the pasted image of tile t covers the canvas's first pixel column (row) exactly when t is in the corner tile's column (row) |
| Tiles.MosaicSize | pathmap/getmap.py:58 | the mosaic size is non-negative for ordered corners and zero on an axis where the corners coincide |
| Tiles.SequentialPastes | pathmap/getmap.py:70-83 | the sequential branch pastes the same tiles, at the same places, in the same order as the parallel branch |
| Tiles.AxisCovered | pathmap/getmap.py:58-83 | every pixel column or row of the mosaic is covered by the image of a requested tile |
| Tiles.MosaicCovered | pathmap/getmap.py:58-83 | every pixel of the mosaic lies inside the pasted image of a requested tile |
| Orientation.SteppedIs | pathmap/getmap.py:261 | range(start, start + step·n, step) is the n-term progression from start |
| Orientation.CandidatesAreRange | pathmap/getmap.py:261 | the angles tried are exactly range(-90, 90, 5) |
| Orientation.ScanSelects | pathmap/getmap.py:258-270 | the loop keeps its start state when no angle beats it, and otherwise ends on the first feasible angle of least penalty |
| Orientation.ScanIgnoresMinHeight | pathmap/getmap.py:258-270 | the best angle and lowest penalty never depend on minheight |
| Orientation.BestAngleSelects | pathmap/getmap.py:258-273 | the result is 0 without a feasible candidate under penalty 1000, and otherwise the negation of the first strict minimum of height + \|angle\|/100 |
| Orientation.BestAngle | pathmap/getmap.py:258-273 | the result is 0 or the negation of a tried angle: a multiple of 5 in [-85, 90] |
| Orientation.BestAngleFeasible | pathmap/getmap.py:265 | a chosen angle passed the strict width test |
| Orientation.BestAngleIgnoresMaxHeight | pathmap/getmap.py:258 | maxheight cannot change the result |
| Orientation.TouchesPositive | pathmap/getmap.py:308-310 | for a positive angle the rotated upper left corner is leftmost and the rotated upper right corner topmost over the old box |
| Orientation.TouchesOtherwise | pathmap/getmap.py:311-313 | otherwise the rotated bottom left corner is leftmost and the rotated upper left corner topmost |
| Orientation.NewUpperLeft | pathmap/getmap.py:306-316 | for a rotation by −angle with \|angle\| ≤ 90, new_bb_upper_left is left of and above every rotated point of the old box |
| Orientation.ScaledOrder | pathmap/getmap.py:322-327 | a non-negative start and length stay ordered after int() |
| Orientation.CropBox | pathmap/getmap.py:318-327 | the crop box has non-negative left and upper and is ordered when the rotated surroundings lie right of and below new_bb_upper_left |
| Strings.SplitJoin | pathmap/cykloserver.py:51 | joining the pieces gives the string back, and no piece holds the separator |
| Strings.JoinSplit | pathmap/cykloserver.py:51 | splitting separator-free pieces joined by the separator gives them back |
| Strings.SplitConcat | pathmap/cykloserver.py:51 | splitting at a separator splits both sides independently |
| Strings.SplitMany | pathmap/cykloserver.py:48 | there is more than one piece exactly when the separator occurs |
| Strings.SplitOnceHalves | pathmap/cykloserver.py:48 | split(c, 1) fails to give two halves exactly without a separator; the first half has none and the halves rejoin to the string |
| Strings.SplitOnceUnique | pathmap/mapycz.py:54 | any split of a string at a first separator is split(c, 1)'s |
| Strings.NatStringDigits | pathmap/mapycz.py:93 | str() of a natural number is non-empty decimal digits |
| Strings.IntStringChars | pathmap/mapycz.py:93 | str() of an integer holds only digits and a leading minus sign |
| Strings.IntStringRoundTrip | pathmap/mapycz.py:93 | int(str(x)) == x |
| UrlQuery.EntryOf | pathmap/mapycz.py:63 | a piece fails with IndexError exactly when it lacks '='; otherwise the key and value are '='-free and the piece is key=value, possibly followed by '=' and more |
| UrlQuery.EntryOfPiece | pathmap/cykloserver.py:51 | key=value gives (key, value), and whatever follows a second '=' is dropped |
| UrlQuery.EntriesSpec | pathmap/cykloserver.py:51 | the entries fail, with IndexError, exactly when some piece lacks '='; otherwise there is one per piece, in order |
| UrlQuery.ToMapKeys | pathmap/mapycz.py:63 | the dictionary's keys are exactly the entries' keys |
| UrlQuery.ToMapLastWins | getmap.py:9 | a repeated key keeps the value of its last occurrence |
| UrlQuery.AttributesSpec | getmap.py:9 | a query fails with IndexError exactly when one of its '&'-pieces lacks '='; otherwise it gives the dictionary of its entries |
| UrlQuery.Attributes | pathmap/mapycz.py:63 | a query fails, with IndexError, exactly when one of its '&'-pieces lacks '=' |
| UrlQuery.EmptyPieceFails | pathmap/mapycz.py:63 | a query with an empty piece fails with IndexError |
| UrlQuery.EmptyQueryFails | getmap.py:9 | an empty query fails with IndexError |
| UrlQuery.TrailingAmpersandFails | pathmap/mapycz.py:63 | a trailing '&' fails with IndexError |
| UrlQuery.DoubledAmpersandFails | pathmap/mapycz.py:63 | a doubled '&' fails with IndexError |
| UrlQuery.GuardedNoQuery | pathmap/mapycz.py:46-52 | a URL without '?' comes back unchanged with no attributes |
| UrlQuery.GuardedQuery | pathmap/mapycz.py:54-64 | the split is at the first '?'; an empty query gives the prefix and no attributes, otherwise the query's attributes |
| UrlQuery.ParseGuarded | pathmap/mapycz.py:41-64 | a parsed URL is a prefix of the input and holds no '?' |
| UrlQuery.UnguardedNoQuery | pathmap/cykloserver.py:48 | without '?' the unpacking fails with ValueError |
| UrlQuery.UnguardedQuery | pathmap/cykloserver.py:48-51 | the URL is the text before the first '?' and the attributes come from everything after it |
| UrlQuery.ParseUnguarded | pathmap/cykloserver.py:43-52 | the parser succeeds only on a URL holding '?', and the parsed URL is a '?'-free prefix of it |
| UrlQuery.EmptyQueryDiffers | pathmap/cykloserver.py:48-51 | with an empty query the unguarded parser fails with IndexError and the guarded one returns the prefix |
| UrlQuery.VariantsAgree | getmap.py:5-10 | the two parsers agree exactly on URLs with '?' and a non-empty query, and wherever the unguarded one succeeds |
| UrlQuery.TwoEntries | pathmap/mapycz.py:63 | two entries with distinct '='- and '&'-free keys and values give a two-key dictionary |
| UrlQuery.TwoEntryUrl | pathmap/cykloserver.py:48-51 | such a URL parses with both parsers to its prefix and those two attributes |
| UrlQuery.KnownExample | pathmap/test/test_cykloserver.py:39 | par1=23&par2=45 gives {par1: 23, par2: 45} from both parsers |
| TileNames.NoUnderscore | pathmap/mapycz.py:93 | str() of an integer has no '_' |
| TileNames.FilenameRoundTrip | pathmap/mapycz.py:92-93 | every cache name reads back to its tile |
| TileNames.FilenameInjective | pathmap/cykloserver.py:132-133 | distinct tiles get distinct cache names |
| TileNames.SourcesDisjoint | pathmap/cykloserver.py:132-133 | mapycz and cykloserver cache names never clash |
| TileNames.MapyczFilename | pathmap/mapycz.py:92-93 | the mapycz_{x}_{y}.png name reads back to its tile |

## Left out

- PIL raster work is not modelled: canvas allocation, masks, masked paste, the path overlay, rotate and crop. Only the canvas sizes and paste positions are kept, as integers.
- Shapely is not modelled: `buffer`, `affinity.rotate` and `bounds`. In `_best_angle` the rotated width and height are functions of the angle. In `_crop_after_rotation` the rotation is a cosine, a sine and a centre.
- Tile fetching is not modelled: `get_tile`, downloads, tokens, sessions, the nodejs subprocess, the on-disk cache and the thread pool are I/O. The parallel branch is modelled by its paste order, which `zip` ties to `tiles_needed`.
- `lon_lat_to_tiles` (pyproj and fitted float coefficients), GPX parsing, PDF building and the command line are I/O or foreign code. The chunker starts from tile-space points.
- Floats are reals: no rounding. `sqrt` is replaced by comparing squares, which is equivalent for non-negative values.
- Python dictionaries become maps: key order is not modelled.
- The test file pathmap/test/test_cykloserver.py compares with the bare attribute dictionary and calls a method the class does not have. It is used only for the attribute values of its examples.
- Corridor.Chunk: the chunker is modelled only under `Progresses`, which guarantees termination. On configurations outside it the source may loop for ever (see the finding below), and that behaviour is captured only by `Chunking.OverflowRepeats`, not by `Chunk`.
- Chunking.GrowKeepsLimits: a one-point bite is never checked against the limits, as in the source, so the limits are stated for bites of two or more points only.
- Segments.SegmentInsideBox: requires `radius_pix >= 0`. With a negative radius the source's sort still gives the widest box, but the bite box shrinks instead of widening.
- Segments.PasteOffsetInCanvas: the vertical fit is stated only for square tiles. The canvas height is scaled by `xres` (`len_pix` uses `xres` for both axes) while the mosaic height is scaled by `yres`.
- Segments.BitePasteInCanvas: the vertical fit is stated only for square tiles, for the same reason: with `yres` larger than `xres` a segment's mosaic can run past the bottom of the canvas. It also requires `radius_pix >= 0`, as `Segments.SegmentInsideBox` does.
- Orientation.NewUpperLeft: its bound assumes the sign pattern of a rotation by −angle with |angle| ≤ 90: cos ≥ 0, and sin ≤ 0 for a positive angle, ≥ 0 otherwise. Trigonometry is not modelled.
- Orientation.CropBox: its ordering assumes the rotated surroundings' bounds lie right of and below `new_bb_upper_left`. That holds because the surroundings lie inside their old bounding box, but shapely's bounds are not modelled.
- Segments.Least4: `sorted()` of the four values is modelled only through its first and last element, the only ones the source uses.

## Findings

| source | as written | input that shows it | evidently intended | confidence | as-written member | corrected member |
|---|---|---|---|---|---|---|
| pathmap/cykloserver.py:48-51 | the query parser splits on '?' without a guard: no '?' raises on unpacking, and an empty query raises on the single empty piece | `http://server.com/` and `http://server.com/index.php?` (pathmap/test/test_cykloserver.py:36-38 expect no attributes) | no attributes for both, as the guarded parser of pathmap/mapycz.py:51-59 returns | medium, not executed | UrlQuery.UnguardedNoQuery, UrlQuery.EmptyQueryDiffers | UrlQuery.ParseGuarded (UrlQuery.GuardedNoQuery, UrlQuery.GuardedQuery) |
| pathmap/getmap.py:133-159 | a one-point bite whose next point is close but overflows a limit pushes its own point back and breaks; the next bite restarts from the same state, so the generator repeats that one-point bite for ever | the default limits (maxwidth_pix 1000, maxheight_pix 800, maxdist_pix 500) with radius_pix 200, 256-pixel tiles and two points 448 pixels apart vertically: 448 + 2 * 200 > 800 | a finite sequence of bites: the limits leave room for a maximal segment and its corridor, so every fresh bite takes its next point | high, not executed | Chunking.OverflowRepeats, Chunking.WideRadiusRepeats | Corridor.GrowProgress (Corridor.Chunk, Corridor.ChunkShrinks) |
