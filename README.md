# allrgb — a Dafny model of the greedy colour fill

allrgb paints an image in which every colour of a palette appears exactly
once. One colour is put on a seed pixel. Each further colour is popped from
the end of the palette and placed on the frontier cell (an unseen cell next
to a seen one) whose seen neighbours are, on integer average of the squared
RGB distance, closest to it.

The model follows the three source files:

- `src/lib.rs` — `generate`, a four-connected fill, and `color_dist`.
  Modules `Fill` (the imperative engine), `Greedy` (what a run is),
  `Frontiers` (frontier and score) and `Colors`.
- `src/image.rs` — the `Image` buffer with its four-connected
  `for_each_neighbor`, and `dump_ppm`. Modules `Images`, `Grid` and `Ppm`.
- `src/main.rs` — the palette cube, the same fill inlined with an
  eight-connected `for_each_neighbor` seeded at the centre, and the PPM dump.
  Modules `Palettes` and `Driver`.

Both copies of `Image` and of the fill are modelled once. A `Topology`
(`FourConnected` or `EightConnected`) selects the neighbour enumeration.
`Arith` holds the multiplication and division facts the proofs use.
The palette's intensities `i * 255 / n` never reach 255; with 32 levels the
brightest is 247.

The fill engine `Fill.Generate` works in place, as the source does:

- two `Image` objects over arrays, the colours and the `seen` mask;
- a `set` of cells for `free`;
- a loop that pops colours.

It is proved against a ghost run `placed`, the cells in the order they were
taken. `Greedy.GreedyRun` says that the seed comes first and that every later
cell was a frontier cell of minimal score when it was taken. The two buffers
always equal `Greedy.MaskOf` and `Greedy.Painted` of that run. `free` always
equals `Frontiers.Frontier` of the mask.

## Model

| member | source | states |
|---|---|---|
| Colors.ColorDist | src/lib.rs:62-68 | the distance is between 0 and 3·255² (below the i32 limit) and is 0 exactly when the two colours are equal |
| Colors.ColorDistSymmetric | src/main.rs:162-168 | swapping the two colours gives the same distance |
| Grid.Index | src/image.rs:28-45 | the row-major offset `y * width + x` of an in-bounds cell is below `width * height` |
| Grid.IndexInjective | src/image.rs:37-45 | two in-bounds cells share an offset exactly when they are the same cell |
| Grid.CellAt | src/image.rs:28-34 | every offset below `width * height` is the offset of an in-bounds cell |
| Grid.Neighbors4 | src/image.rs:47-60 | the four-connected enumeration yields at most four cells |
| Grid.Neighbors4Exact | src/image.rs:47-60 | the four-connected enumeration yields exactly the in-bounds cells at Manhattan distance 1 |
| Grid.Neighbors4Increasing | src/image.rs:47-60 | it yields them in the order left, up, down, right, so never one twice |
| Grid.Neighbors8 | src/main.rs:111-138 | the eight-connected enumeration yields at most eight cells |
| Grid.Neighbors8Exact | src/main.rs:111-138 | the eight-connected enumeration yields exactly the in-bounds cells at Chebyshev distance 1, never the cell itself |
| Grid.Neighbors8Increasing | src/main.rs:111-138 | it yields them column by column and top to bottom, so never one twice |
| Grid.Neighbors | src/main.rs:111-138 | at most eight cells are yielded |
| Grid.NeighborsExact | src/image.rs:47-60 | either topology yields exactly the in-bounds adjacent cells |
| Grid.NeighborsInBounds | src/image.rs:47-60 | every yielded cell is in bounds, so `get` on it stays in the buffer |
| Grid.NeighborsSymmetric | src/main.rs:111-138 | `a` is yielded for `b` exactly when `b` is yielded for `a` |
| Grid.InteriorNeighbors | src/main.rs:111-138 | a cell off the border gets 4 neighbours (four-connected) or 8 (eight-connected) |
| Images.Image.constructor | src/image.rs:12-25 | `new(pix, w, h)` has width `w`, height `h` and `w * h` cells, all `pix`; `width()` and `height()` are the fields `width` and `height` it sets |
| Images.Image.Get | src/image.rs:27-34 | `get(x, y)` of an in-bounds cell reads `data[y * width + x]`, an offset inside the buffer |
| Images.Image.Neighbors | src/image.rs:47-60 | `for_each_neighbor(x, y)` visits at most eight cells, and around an in-bounds cell only in-bounds cells adjacent to it in the image's topology |
| Images.Image.Set | src/image.rs:36-45 | the buffer changes at the cell's offset only; `get` of that cell returns the new pixel, every other in-bounds cell reads as before |
| Frontiers.SeenNeighborWitness | src/lib.rs:29-42 | the scoring closure counts a seen neighbour exactly when some neighbour is seen |
| Frontiers.Frontier | src/lib.rs:20-23 | a cell is in the frontier exactly when it is in bounds, unseen and has a seen neighbour |
| Frontiers.FrontierAfterPlace | src/lib.rs:46-54 | after marking `c`, the frontier is the old one without `c` plus the unseen neighbours of `c` |
| Frontiers.BlankFrontier | src/lib.rs:14-15 | on a blank mask the frontier is empty |
| Frontiers.SeedFrontier | src/lib.rs:17-23 | once only the seed is marked, the frontier is exactly its neighbours, so inserting them unchecked is right |
| Frontiers.FrontierNonEmpty | src/lib.rs:25-44 | while one cell is seen and another is not, the frontier is not empty, so `unwrap` of `min_by_key` cannot fail |
| Frontiers.SeenCountPositive | src/lib.rs:32-42 | the `neighbors` counter is positive exactly when a visited cell is seen |
| Frontiers.NothingSeenCount | src/lib.rs:29-39 | on a blank mask the counter stays 0 |
| Frontiers.DistTotalBounds | src/lib.rs:29-39 | the counter is at most the number of visits, and the running total lies between 0 and 195075 times the counter |
| Frontiers.Score | src/lib.rs:42 | the integer average `total_color_dist / neighbors` of a frontier cell lies between 0 and 195075 |
| Frontiers.ScoreBounds | src/lib.rs:29-42 | for a frontier cell the i32 total does not overflow and the score lies between 0 and 195075 |
| Greedy.MaskOf | src/lib.rs:15 | the mask of any run has `width * height` entries |
| Greedy.Painted | src/lib.rs:14 | the colour buffer of any run has `width * height` entries |
| Greedy.RunTakesUnseen | src/lib.rs:17-46 | a greedy run only takes in-bounds cells that were unseen at the time |
| Greedy.RunExtend | src/lib.rs:25-57 | a greedy choice extends a greedy run by one cell |
| Greedy.TakeOneMore | src/lib.rs:46-56 | taking a cell marks exactly that cell and paints it with the colour popped for it |
| Greedy.PlacedAreSeen | src/lib.rs:46-47 | every cell taken so far is seen |
| Greedy.TakenUnseenPrefix | src/lib.rs:25-57 | every prefix of a run also took only unseen cells |
| Greedy.RunDistinct | src/lib.rs:46-47 | no cell is taken twice |
| Greedy.UnseenIsBlack | src/lib.rs:14 | a cell not yet seen is still `(0, 0, 0)` |
| Greedy.PlacedKeepsColor | src/lib.rs:17-56 | the `j`-th cell taken still holds the `j`-th colour popped, whatever was taken after it |
| Greedy.RunStartsAtSeed | src/lib.rs:17-18 | a run starts at the seed |
| Greedy.SeedKeepsLastColor | src/lib.rs:17 | the seed keeps the palette's last colour to the end |
| Greedy.TakenSeenCount | src/lib.rs:25-57 | after `k` cells are taken exactly `k` are seen, so at most `width * height` can be taken |
| Greedy.PaintOneMore | src/lib.rs:56 | painting an unseen cell trades one black for the next popped colour |
| Greedy.TakenPaint | src/lib.rs:25-57 | after `k` cells the image is the last `k` palette colours plus `width * height - k` blacks, as a multiset |
| Greedy.CompleteRun | src/lib.rs:25-59 | at the end every cell is seen and the image is a permutation of the palette |
| Greedy.FrontierWhileColorsRemain | src/lib.rs:25-44 | while colours remain the frontier of a run is not empty |
| Fill.Tally | src/lib.rs:32-39 | after the walk, `neighbors` counts the seen visited cells and `total_color_dist` sums their distances to the colour |
| Fill.ScoreOf | src/lib.rs:29-42 | the closure returns `total_color_dist / neighbors` of the cell, between 0 and 195075, and never divides by 0 |
| Fill.SelectMin | src/lib.rs:26-44 | `min_by_key` returns a cell of `free` whose score no cell of `free` undercuts |
| Fill.UnseenAll | src/lib.rs:49-54 | the cells collected after the neighbour loop are exactly the unseen neighbours |
| Fill.InsertUnseen | src/lib.rs:50-54 | `free` gains exactly the visited cells that are not seen |
| Fill.Expand | src/lib.rs:49-54 | `free` loses the placed cell and gains exactly its unseen neighbours |
| Fill.InsertAll | src/lib.rs:20-23 | `free` holds exactly the cells `for_each_neighbor` visits |
| Fill.PlaceNext | src/lib.rs:25-56 | one turn takes a minimal-score cell of `free`, marks and paints only that cell, and leaves `free` equal to the new frontier |
| Fill.PlaceSeed | src/lib.rs:17-23 | the seed is painted and marked, and `free` is then the frontier |
| Fill.RunStep | src/lib.rs:25-57 | one turn extends the greedy run by one cell and keeps the buffers and `free` equal to the run's mask, painting and frontier |
| Fill.Generate | src/lib.rs:7-60 | a size mismatch and an empty palette are the two errors; otherwise the result is a complete greedy run from the seed whose image is a permutation of the palette, with the last colour at the seed |
| Palettes.Level | src/main.rs:26-28 | `i * 255 / n` is below 255, so `u8::try_from` never fails |
| Palettes.LevelIncreasing | src/main.rs:26-28 | with at most 255 levels, higher levels are strictly brighter |
| Palettes.LevelCollision | src/main.rs:26-28 | with more than 255 levels, levels 0 and 1 are both intensity 0 |
| Palettes.Palette | src/main.rs:21-32 | the palette has `n³` colours |
| Palettes.PaletteColor | src/main.rs:25-29 | every channel of a pushed colour is below 255, so each `u8::try_from(..).unwrap()` succeeds |
| Palettes.PaletteAt | src/main.rs:22-29 | the entry at `ri·n² + gi·n + bi` is the colour of levels `ri`, `gi`, `bi` |
| Palettes.PaletteDistinct | src/main.rs:21-32 | the palette has no repeated colour exactly when `n <= 255` |
| Palettes.BuildPalette | src/main.rs:21-32 | the three nested loops push exactly the palette, red slowest and blue fastest |
| Ppm.Decimal | src/image.rs:67-74 | a number prints as a non-empty run of decimal digits, with a leading `0` only for 0 itself |
| Ppm.Header | src/image.rs:67-74 | the header is `P6\n`, the two numbers with a space and a newline, then `255\n` |
| Ppm.PpmBytes | src/image.rs:64-81 | the output is the header followed by three bytes per pixel |
| Ppm.PixelBytes | src/image.rs:76-78 | three bytes per pixel |
| Ppm.DumpPpm | src/image.rs:64-81 | the bytes written are the header `P6\n{width} {height}\n255\n` then `r, g, b` of every pixel in buffer order, `3 * width * height` bytes |
| Ppm.DecimalValue | src/image.rs:67-74 | printed digits read back as the number |
| Ppm.ParseDecimal | src/image.rs:67-74 | a printed number and its terminator parse back |
| Ppm.PixelsRoundTrip | src/image.rs:76-78 | the pixel bytes group back into the pixels |
| Ppm.BodyRoundTrip | src/image.rs:71-78 | the `255` line and the pixel bytes read back as the pixels |
| Ppm.DimensionsRoundTrip | src/image.rs:69-73 | the dimension line reads back as width and height |
| Ppm.PpmRoundTrip | src/main.rs:141-160 | what `dump_ppm` writes decodes back to the same width, height and pixels |
| Driver.RenderMain | src/main.rs:15-85 | `main` writes the PPM of a complete eight-connected greedy run from the centre of the 256 by 128 image; the bytes read back as a 256 by 128 image holding every colour of the 32-level palette exactly once |

## Left out

- File creation, the `BufWriter` and the propagation of `io::Result`: `dump_ppm` is modelled as the byte sequence it writes, and `main` returns those bytes.
- The shuffle with `thread_rng()`: `Driver.RenderMain` takes the shuffled palette as a parameter, any permutation of the palette.
- `HashSet` hashing and iteration order: `free` is a mathematical set, and `min_by_key` is modelled as returning some minimiser. Which of several equal-score cells is taken is not specified.
- The `cfg!(debug_assertions)` split between checked and unchecked indexing: `get` and `set` require in-bounds coordinates. `debug_assert!(neighbors > 0)` and `debug_assert!(!seen.get(x, y))` are proved (`Fill.ScoreOf`, `Greedy.RunTakesUnseen`), not checked at run time.
- Fill.Generate: requires the seed to be in bounds when `|colors| == w * h > 0`. The source does not check the seed. With a seed past the end of a row (`sx >= width`) but an offset below `width * height`, `set` writes a cell of another row, and `for_each_neighbor` (src/lib.rs:21-23) inserts cells outside the grid into `free`. With an offset at or past `width * height`, a debug build panics on indexing and a release build writes through `get_unchecked_mut` (src/image.rs:41-43), which is undefined behaviour. None of this is modelled.
- `usize` arithmetic is unbounded in the model: the overflow of `width * height` or `ri * 255` on huge inputs is not modelled. The distance sums are bounded and shown to fit an `i32` (`Frontiers.ScoreBounds`).
- The `examples/*.rs` drivers call a multi-seed `generate` and a palette helper that are not in `src/lib.rs`. They are not part of this model.
- Running time and the cost of scanning the whole frontier for every colour.
