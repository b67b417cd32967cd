# LMDB space visualiser: crawl and space binner

This project models the integer core of a viewer for LMDB stores. The viewer
shows which sub-databases (tables) occupy which bytes of the store's data
file. The model covers five parts of the source:

- The crawl post-processing of `LMDBLoader::crawl`:
  - each record becomes a key extent and a value extent, and the two point
    at each other through `ref`;
  - tables are numbered in catalog order;
  - extents are sorted by start.
- The "empty db" check.
- `getColour`, the palette lookup.
- The per-table key/value/total byte tally.
- The bitmap build of `renderDB`, which:
  - bins the sorted extents into a mini buffer of `(w / mag) * (h / mag)` cells;
  - skips extents before the window or hidden by a visibility toggle;
  - stops once a run reaches the buffer end;
  - fills cells past `lastPixelSet` with the trailing marker 0x30FFFFFF;
  - magnifies to `w * h` output pixels.

Finally, it models the ',' / '.' key handling that keeps `mag` in [1, 16].

Modules:

- `Ints` holds the C integer widths and uint64 addition.
- `LMDBOffsets` holds the `Table`/`Offset` records and the sort by start.
- `LMDBLoader` is the crawl.
- `Palette` is `getColour`.
- `Viz` holds the table rows, the empty check and the tally.
- `Binner` is the bitmap build, and `BinnerProps` holds its properties.
- `MagKeys` is the magnification control.

The LMDB cursor walk becomes an input. It is the catalog as a sequence of
named tables, each with its records in cursor order. Each record gives the
addresses and lengths of its key and value. The map start is also an input.
`mapEnd` (the file size) and the first shown byte `skipOffset` are plain
naturals. The floating-point `/= zoom` step is a function parameter
`zoomScale`, and the `+1` that follows it is kept.

The cell colours are specified without the loop, in three parts:

- **Consumed.** The extents examined are those up to and including the
  first whose run reaches the buffer end.
- **Painted.** A cell holds the colour of the last examined extent whose run
  covers it.
- **FinalLast.** `lastPixelSet` is the last index of the last painting run.

Cells past `FinalLast` hold the trailing marker. The method `PaintMini`
follows the source loop, `continue`s and `break` included, and is proved
equal to this specification.

The model follows the code, including where it behaves otherwise than a
reader of the viewer might expect:

- The crawl has no corrupt-store check. An address below the map start
  wraps around modulo 2^64 (`MapOffset`).
- The empty-store check is in `cmd_viz` (cmd_viz.cpp:85), not in the crawl.
- `lastPixelSet` is the end of the last painting run, not the furthest
  cell painted. A short extent inside a longer one therefore pulls it back
  (`OverlapLetsTrailingEraseAPaintedCell`).
- The `break` after a run that reaches the buffer end changes the picture
  only when extents overlap (`BreakChangesTheResult`); for
  non-overlapping extents it changes no cell
  (`DisjointExtentsMakeTheBreakIrrelevant`).
- Magnification maps each run of `mag * mag` consecutive output pixels to
  one cell. So `mag x mag` blocks of a row-major window are not uniform
  (`MagnifiedBlocksAreNotSquare`).
- A window with zero cells divides by zero instead of yielding an
  all-trailing grid. See Findings.

## Model

| member | source | states |
|---|---|---|
| Ints.AddU64 | src/cmd_viz.cpp:107-109 | uint64 `+=`: the exact sum when below 2^64, otherwise the sum minus 2^64 |
| Ints.AddU64Congruent | src/cmd_viz.cpp:107-109 | adding into an accumulator that is the exact sum modulo 2^64 keeps it equal to the new exact sum modulo 2^64 |
| LMDBOffsets.InsertByStart | src/LMDBLoader.h:80-82 | inserting into a list sorted by start gives a sorted list with the same elements plus the new one |
| LMDBOffsets.SortByStart | src/LMDBLoader.h:80-82 | the sort by `start` returns a list sorted non-decreasingly by start that is a permutation of its input |
| LMDBOffsets.SortedPermutationsAgreeOnStarts | src/LMDBLoader.h:80-82 | any two sorted permutations of the same extents have the same start at every position, so the unstable `std::sort` only reorders extents with equal starts |
| LMDBLoader.MapOffset | src/LMDBLoader.h:68-69 | `address - mapStart` in uint64: adding `mapStart` back modulo 2^64 gives the address; without a borrow it is the plain difference, and an address below the map start wraps by 2^64 |
| LMDBLoader.TableIdOf | src/LMDBLoader.h:59-77 | the uint64 counter stored in a uint16 id equals the table's position while that is below 2^16 |
| LMDBLoader.RecordExtents | src/LMDBLoader.h:66-73 | one table's records yield exactly two extents each, at positions 2k and 2k+1: the key extent (kind 0, key address and length, `ref` the value start), then the value extent (kind 1, `ref` the key start), all with the table's id |
| LMDBLoader.Emit | src/LMDBLoader.h:59-78 | before the sort: one table entry per catalog name with id = position; exactly twice as many extents as records; record k of table i has its key extent at position 2(r + k) and its value extent right after, where r counts the records of earlier tables, which with the length fixes every position; every id below the table count |
| LMDBLoader.Crawl | src/LMDBLoader.h:38-85 | the crawl's tables are those emitted, its extents are sorted by start and are a permutation of the emitted list |
| LMDBLoader.CrawlShape | src/LMDBLoader.h:59-82 | after the sort: as many tables as catalog names, exactly two extents per record, both extents of every record present, and conversely every extent the key or the value extent of some record of a listed table |
| LMDBLoader.EmittedExtentsAreRecordHalves | src/LMDBLoader.h:59-78 | before the sort every extent is the key or the value extent of some record: the loop emits nothing else |
| LMDBLoader.CrawlKeepsPartners | src/LMDBLoader.h:68-82 | after the sort every extent still finds its partner: same table, opposite kind, `ref` of each equals the `start` of the other |
| LMDBLoader.TableIdsAreCatalogPositions | src/LMDBLoader.h:59-77 | with at most 65536 tables, `tables[i].tableId == i` with the catalog's i-th name, and `tables[o.tableId]` is the table an extent belongs to |
| LMDBLoader.RecordHalvesPointAtEachOther | src/LMDBLoader.h:68-72 | a record's key and value extents are partners, map back to the record's addresses, and carry the record's key length (kind 0) and value length (kind 1) respectively |
| Palette.GetColour | src/cmd_viz.cpp:35-40 | the alpha byte is always 0xFF; the low 24 bits are the palette entry at `tableId mod 15`, XORed with 0x666666 for values |
| Palette.ValueColourIsMaskedKeyColour | src/cmd_viz.cpp:37 | a table's value colour is its key colour XOR 0x666666 |
| Palette.ColoursRepeatEveryFifteenTables | src/cmd_viz.cpp:36 | table ids congruent modulo 15 get the same colour |
| Palette.ColourAtInjective | src/cmd_viz.cpp:17-40 | the 30 possible colours (15 entries, key or value) are pairwise different |
| Palette.SameColourIff | src/cmd_viz.cpp:35-40 | two extents share a colour exactly when their table ids agree modulo 15 and both are keys or both are values |
| Viz.Load | src/cmd_viz.cpp:83-85 | loading fails with "empty db" exactly when the catalog has no tables or no records, and otherwise returns the crawl |
| Viz.TallySpace | src/cmd_viz.cpp:97-110 | one visible row per table with its name and id; each row's keySpace and valSpace are the byte sums of its kind-0 and kind-1 extents modulo 2^64, and totalSpace is the sum of all extent sizes modulo 2^64 |
| Viz.SpaceIsConserved | src/cmd_viz.cpp:106-110 | when every extent is a key or value of a listed table, the per-table key plus value byte sums add up to the total |
| Viz.CrawlTallyAddsUp | src/cmd_viz.cpp:84-110 | the crawl's extents all index a table and are keys or values, so the tally over a crawl conserves bytes |
| Binner.PaintMini | src/cmd_viz.cpp:135-160 | the paint loop leaves every cell with the colour of the last examined extent stamping it (0 if none) and `lastPixelSet` at the end of the last examined painting run |
| Binner.FillTrailing | src/cmd_viz.cpp:164-166 | cells after `lastPixelSet` become 0x30FFFFFF and the others are unchanged |
| Binner.BinCells | src/cmd_viz.cpp:143-166 | the finished mini buffer matches the loop-free specification cell by cell, and `endOffset = skipOffset + bytesPerPixel * lastPixelSet` |
| Binner.Magnify | src/cmd_viz.cpp:170-171 | as written: `w * h` output pixels, pixel i copying cell `i / (mag * mag)`, given the reads stay in the mini buffer |
| Binner.MagnifyTotal | src/cmd_viz.cpp:170-171 | corrected: pixel i copies cell `i / (mag * mag)` when that cell exists and is the trailing marker otherwise; no precondition |
| Binner.RenderDB | src/cmd_viz.cpp:133-173 | as written, given a non-zero cell count and in-bounds reads: bytes per cell is `zoomScale(mapEnd / cells) + 1`, the end offset is as above, and every output pixel shows its cell's specified colour |
| Binner.RenderDBTotal | src/cmd_viz.cpp:133-173 | corrected: any window renders; zero cells divide by 1 and give an all-trailing output; pixels past the mini buffer are trailing |
| BinnerProps.ColourIsNotAMarker | src/cmd_viz.cpp:35-40 | no extent colour equals the free value 0 or the trailing marker |
| BinnerProps.PaintedFreeIff | src/cmd_viz.cpp:135-155 | a cell keeps its initial 0 exactly when no extent's run covers it |
| BinnerProps.LastStampWins | src/cmd_viz.cpp:154-155 | a cell shows the colour of the last extent whose run covers it |
| BinnerProps.PaintedIsNeverTrailing | src/cmd_viz.cpp:154-155 | painting never writes the trailing marker |
| BinnerProps.TrailingExactlyPastLast | src/cmd_viz.cpp:162-166 | a cell holds 0x30FFFFFF exactly when it lies after `lastPixelSet` |
| BinnerProps.UnpaintedCellsKeepZero | src/cmd_viz.cpp:135-164 | a cell up to `lastPixelSet` holds 0 exactly when no examined run covers it |
| BinnerProps.NothingPaintedLeavesCellZeroFree | src/cmd_viz.cpp:143-166 | if no extent paints, `lastPixelSet` stays 0, cell 0 keeps 0 and every later cell is trailing |
| BinnerProps.NonPaintingExtentIsIrrelevant | src/cmd_viz.cpp:146-152 | removing an extent before `skipOffset` or hidden for its table changes neither `lastPixelSet` nor any cell |
| BinnerProps.EarlyStopIsAHalt | src/cmd_viz.cpp:159 | when the loop stops before the end of the list, the last examined extent's run reached the buffer end |
| BinnerProps.ExtentsAfterHaltAreIgnored | src/cmd_viz.cpp:159 | after an extent whose run reaches the buffer end, replacing everything that follows changes nothing |
| BinnerProps.ReachesEndIff | src/cmd_viz.cpp:154-159 | with a non-empty buffer, `lastPixelSet` reaches the buffer end exactly when some extent's run does |
| BinnerProps.BreakKeepsCellsALaterExtentWouldErase | src/cmd_viz.cpp:156-166 | when a short extent follows one that reaches the end, the break keeps cells that running on would turn trailing |
| BinnerProps.BreakChangesTheResult | src/cmd_viz.cpp:159 | some input with overlapping extents renders differently with and without the break |
| BinnerProps.DisjointExtentsMakeTheBreakIrrelevant | src/cmd_viz.cpp:159 | for non-overlapping extents every cell of the buffer is the same with and without the break, so the break matters only for overlapping extents |
| BinnerProps.RunsDoNotCross | src/cmd_viz.cpp:148-149 | an extent ending before another starts has its run end no later than the other's run begins |
| BinnerProps.LastSetIsFurthest | src/cmd_viz.cpp:156 | for non-overlapping extents `lastPixelSet` is the furthest run end |
| BinnerProps.DisjointExtentsKeepTheirPaint | src/cmd_viz.cpp:162-166 | for non-overlapping extents the trailing fill only covers cells nothing painted |
| BinnerProps.ShortExtentInsideLongOneErasesIt | src/cmd_viz.cpp:156-166 | a short extent starting inside a longer one pulls `lastPixelSet` back, and the trailing fill covers a cell the longer one painted |
| BinnerProps.OverlapLetsTrailingEraseAPaintedCell | src/cmd_viz.cpp:156-166 | some input has a painted cell overwritten by the trailing marker |
| BinnerProps.SingleExtentExample | src/cmd_viz.cpp:139-166 | a 10 x 1 window over a 1000-byte map with one 500-byte extent: 101 bytes per cell, cells 0-4 coloured, 5-9 trailing, end offset 404 |
| BinnerProps.RunSharesCell | src/cmd_viz.cpp:171 | each run of `mag * mag` consecutive output pixels reads one cell |
| BinnerProps.ReadsInBoundsIff | src/cmd_viz.cpp:171 | all reads `i / m` for `i < n` stay below `c` exactly when `n <= m * c` |
| BinnerProps.MultiplesOfMagFit | src/cmd_viz.cpp:134-171 | when w and h are multiples of mag, `w * h == mag * mag * cells`, so every read is in bounds |
| BinnerProps.ThinWindowHasNoCells | src/cmd_viz.cpp:134-139 | a window narrower or lower than `mag` has zero cells |
| BinnerProps.NarrowWindowHasNoCells | src/cmd_viz.cpp:134-139 | a 2000 x 5 window at the default magnification 8 has zero cells |
| BinnerProps.MagnifyOverrunsMini | src/cmd_viz.cpp:134-171 | an 801 x 800 window at magnification 8 reads cell 10012 of a 10000-cell buffer |
| BinnerProps.MagnifiedBlocksAreNotSquare | src/cmd_viz.cpp:171 | at magnification 2 on a 20 x 2 window, two pixels of the same 2 x 2 block show different cells |
| MagKeys.StepMag | src/cmd_viz.cpp:201-204 | after a key, `mag` is within [1, 16], and keys other than ',' and '.' leave an in-range `mag` unchanged |
| MagKeys.PowersOfTwoInRange | src/cmd_viz.cpp:203-204 | the powers of two within the clamp are 1, 2, 4, 8 and 16 |
| MagKeys.StepKeepsPowerOfTwo | src/cmd_viz.cpp:201-204 | a key press maps a power of two in [1, 16] to a power of two |
| MagKeys.ReachableMagsArePowersOfTwo | src/cmd_viz.cpp:198-204 | any sequence of key presses and Reset clicks keeps a power of two in [1, 16] |
| MagKeys.FromStartUp | src/cmd_viz.cpp:184-204 | from the initial 8, `mag` is always a power of two in [1, 16] |
| MagKeys.ZoomKeysAreInverse | src/cmd_viz.cpp:201-204 | ',' undoes '.' below 16 and '.' undoes ',' above 1; '.' at 16 and ',' at 1 change nothing |
| MagKeys.EveryPowerOfTwoIsReachable | src/cmd_viz.cpp:184-204 | each of 1, 2, 4, 8 and 16 is reachable from start-up |

## Left out

- The LMDB environment, transaction and cursors (src/LMDBLoader.h:29-36, 43-57, 62-66, 73) are foreign library calls. Their output, the catalog of named tables with their records and the map start, is the model's input.
- The GUI is not modelled (cmd_viz.cpp:118-131, 175-178, 188-333). This covers the event loop, widgets, the visibility checkboxes and buttons other than Reset, and the texture upload. Visibility flags are part of the input `Frame`.
- docopt argument parsing (cmd_viz.cpp:79-81) is an external library.
- `renderSize` (cmd_viz.cpp:43-75) and the percentage display use floating-point formatting.
- The float `skip`/`zoom` arithmetic (cmd_viz.cpp:137, 140, 206-213) is left out. `skipOffset` is a natural input, and the `/= zoom` step is the parameter `zoomScale`.
- Viz.TallySpace: requires every extent's table id to index the table list. The source indexes without a check, and `Viz.CrawlTallyAddsUp` shows the crawl meets this requirement.
- Binner.PaintMini: `pixelIndex + numPixels` and the run index are unbounded, so the uint64 overflow of that sum is not modelled. It is reachable only with wrapped extent starts near 2^64.
- Binner.BinCells: `endOffset` is unbounded; the uint64 wrap of `skipOffset + bytesPerPixel * lastPixelSet` is not modelled.
- Binner.RenderDB: `bytesPerPixel` is `zoomScale(...) + 1` without uint64 wrap, and the float-to-integer conversion of the zoom step is inside `zoomScale`.
- LMDBLoader.TableIdOf: the table count is not limited. The environment allows at most 256 named tables (src/LMDBLoader.h:32), which LMDB enforces outside this code.
- LMDBOffsets.SortByStart: this is one fixed order among equal starts. `std::sort` is not stable, so only sortedness and permutation are claimed, plus agreement of starts between any two sorted results.
- No corrupt-store error is modelled: the code has no check that rejects an address outside the map, so such an address gives a wrapped start.
- The unused `mapSize` and the origin of `loader.fileSize` (cmd_viz.cpp:103, 252) are absent; `mapEnd` is a natural input.

## Findings

| source | as written | input that shows it | evidently intended | confidence | as-written member | corrected member |
|---|---|---|---|---|---|---|
| src/cmd_viz.cpp:134-139 | `bytesPerPixel = mapEnd / (wm * hm)` divides by zero when the window has no whole cell. The drawing height is reduced by the padding only when it exceeds it (cmd_viz.cpp:305-306), so a small window reaches this case. | w = 2000, h = 5, mag = 8 gives `wm * hm = 0` | a degenerate grid renders all-trailing | not executed | Binner.RenderDB, BinnerProps.NarrowWindowHasNoCells | Binner.RenderDBTotal |
| src/cmd_viz.cpp:170-171 | `pixelBufMini[i/(mag*mag)]` reads past the mini buffer when w or h is not a multiple of mag | w = 801, h = 800, mag = 8: 10000 cells, but the last pixel reads cell 10012 | every pixel shows a cell of the grid or the trailing marker | not executed | Binner.Magnify, BinnerProps.MagnifyOverrunsMini | Binner.MagnifyTotal, BinnerProps.ReadsInBoundsIff |
