# Game of Crabs: the `World` engine

This project models the `World` struct of conways_game_of_crabs (src/main.rs) in Dafny. `World` is a Conway's Game of Life whose live cells are called crabs. It holds:

- two cell vectors, `crabs` (the current generation) and `crab_buffer` (scratch);
- a fixed width and height;
- two RGBA colours.

Each call to `draw` does four things:

- computes the next generation cell by cell into `crab_buffer`;
- paints each cell's colour into the caller's frame, four bytes per cell;
- leaves every frame byte past the last pixel as it was;
- copies the buffer back into `crabs`.

The modules:

- `Primitives`: bytes, `u32` and the four-byte `Color`.
- `Generation`: the read-only operations as functions over a snapshot of `crabs`:
  - `get_crab`;
  - `get_crabs_siblings`, whose border cells get no neighbours at all;
  - the live-sibling count;
  - `should_crab_live`;
  - the whole next generation `Next`, as `draw` computes it.
- `Engine`: the class `World`:
  - its constructor `new`;
  - `set_crab` and `draw`, with `draw` split into its loop (`ComputeGeneration`), one iteration (`ShouldLiveAt`, `DrawCell`) and the final copy (`CommitBuffer`);
  - `Render`, the frame image of a generation, which `draw`'s frame effect is stated against.
- `Conway`: a separate reference for Conway's rule. It is stated over coordinates and sets of live neighbours, with the outer ring always dead. `NextIsLife` proves that the engine's step equals this reference on every n-by-n board.
- `Scenarios`: two full generations on a 5-by-5 board. A lone crab dies, and a horizontal blinker turns vertical.

The source stores cell (x, y) at index `x + height * y`, but `draw` turns its loop index `i` back into a cell as `(i % width, i / width)`. The model keeps both conventions exactly as written:

- `EncodingFitsExactly` proves when `draw` can read cells without going out of bounds. This holds exactly when every in-grid cell is stored inside the vector, i.e. `width == 0 || height <= width || height == 1` (`EncodingFits`). On any other board some loop index reads outside the vector and panics. The last index does so at the latest, and `LastCellOutside` proves that it does. An earlier one may panic first: on a board one column wide and three rows high, index 1 decodes to (0, 1), which `get_crab` looks up at index 3. So `draw` requires `EncodingFits`.
- `DecodeEncodeExactly` proves that the decoding undoes the encoding for every loop index exactly on square boards, boards with one row, and boards with no columns. The program's host only ever builds a 400-by-400 world.

## Model

| member | source | states |
|---|---|---|
| Generation.GetCrabAfterSet | src/main.rs:86-91 | `get_crab` reads cell (x, y) at index x + height * y. After that index is set to val, (x, y) reads val, and every cell stored at another index reads as before. |
| Generation.OnBorderInGrid | src/main.rs:98 | For a cell inside the grid, the border test holds exactly on the first and last column and the first and last row. |
| Generation.SiblingsDefinedExactly | src/main.rs:98-111 | For an interior cell, neither `height - 1` nor `width - 1` underflows, and all eight sibling reads are inside the vector exactly when the bottom-right one, x + 1 + height * (y + 1), is. |
| Generation.CrabsSiblings | src/main.rs:92-115 | For a border cell (x == 0, y == 0, y >= height - 1 or x >= width - 1) the result is empty. Otherwise it has eight entries, and entry k is the cell at the k-th offset of the order top-left, top, top-right, left, right, bottom-left, bottom, bottom-right. |
| Generation.NeighbourIndexIsIndex | src/main.rs:104-111 | The k-th sibling read is the storage index of (x + dx, y + dy) for the k-th offset of that order. |
| Generation.SiblingCellsDistinct | src/main.rs:98-112 | For an interior cell the eight sibling indices are pairwise different, and none of them is the cell's own index. |
| Generation.LiveCount | src/main.rs:121 | The count of live cells is at most the number of cells. |
| Generation.LiveCountCons | src/main.rs:121 | The count is the first cell's tally plus the count of the rest. |
| Generation.LiveCountIsMultiplicity | src/main.rs:121 | The count equals the number of `true` entries. |
| Generation.LiveSiblingCount | src/main.rs:117-121 | The live-sibling count is at most 8, and it is 0 for any border cell. |
| Generation.ShouldCrabLive | src/main.rs:117-127 | A cell lives exactly when it is alive with 2 or 3 live siblings, or dead with exactly 3. Every border cell dies. |
| Generation.EncodeInBounds | src/main.rs:86-88 | Under `EncodingFits`, every in-grid cell is stored inside the vector of width * height cells. |
| Generation.EncodingFitsExactly | src/main.rs:86-88 | `EncodingFits` holds if and only if every in-grid cell, encoded as x + height * y, lies inside the vector. |
| Generation.CornerOutside | src/main.rs:86-88 | Off `EncodingFits`, the board has a column and more rows than columns, and its bottom-right cell is stored past the vector of width * height cells. |
| Generation.CellInBounds | src/main.rs:98-111 | Under `EncodingFits`, every in-grid cell can be read, and so can the eight siblings of every interior cell. |
| Generation.DecodeInGrid | src/main.rs:130-132 | Every loop index below width * height decodes to x < width and y < height, and the board has at least one row and column. |
| Generation.DecodeEncode | src/main.rs:131-132 | On a board of n columns, decoding the index of a column x < n gives (x, y) back. |
| Generation.DecodeEncodeExactly | src/main.rs:131-132 | Encoding the decoded loop index gives back i for every index if and only if width == height, height <= 1 or width == 0. |
| Generation.LastCellOutside | src/main.rs:129-133 | Off `EncodingFits`, a non-empty board's last loop index decodes to a cell that `get_crab` looks up outside the vector. |
| Generation.NextCellAt | src/main.rs:130-133 | Cell i of the next generation is `should_crab_live` at (i % width, i / width), and that cell and its siblings can be read. |
| Generation.Next | src/main.rs:129-143 | The next generation has as many cells as the current one. |
| Generation.BorderCellsDie | src/main.rs:98-126 | A cell whose decoded coordinates are on the border is dead after a step, whatever its state before. |
| Engine.World.constructor | src/main.rs:70-85 | Both vectors hold width * height cells and are distinct. The cells are the seed. The buffer is all dead. The colours and dimensions are the arguments. |
| Engine.World.SetCrab | src/main.rs:86-91 | Afterwards `get_crab(x, y)` returns val, and every other cell is unchanged. |
| Engine.World.ShouldLiveAt | src/main.rs:131-133 | The returned value is the next state of cell i. |
| Engine.World.DrawCell | src/main.rs:131-141 | The buffer changes only at i, to the cell's next state. Frame bytes 4i..4i+4 become that state's colour, and every other frame byte is unchanged. |
| Engine.World.ComputeGeneration | src/main.rs:130-142 | The buffer becomes the next generation of the unchanged `crabs`. The frame becomes its image followed by the old bytes past 4 * len. |
| Engine.World.CommitBuffer | src/main.rs:143 | `crabs` becomes a copy of the buffer. |
| Engine.World.Draw | src/main.rs:129-144 | `crabs` becomes `Next` of the old generation, and the buffer equals it. Frame bytes 4i..4i+4 hold the crab colour or the clear colour according to the new cell i. The bytes from 4 * len on are unchanged. The lengths are kept. |
| Engine.Render | src/main.rs:136-141 | A generation's image has four bytes per cell. |
| Engine.RenderPixel | src/main.rs:136-141 | Bytes 4i..4i+4 of the image are the crab colour for a live cell and the clear colour for a dead one. |
| Engine.RenderStep | src/main.rs:130-141 | The image of the first i + 1 cells is the image of the first i followed by cell i's colour. |
| Engine.FrameStep | src/main.rs:130-141 | One painted pixel extends the invariant "rendered prefix, then untouched bytes" by one cell. |
| Engine.CopyPixel | src/main.rs:136-141 | Frame bytes 4i..4i+4 become the colour, and no other byte changes. |
| Conway.NextIsLife | src/main.rs:117-143 | On an n-by-n board, cell (x, y) of `Next` is alive exactly when it is off the outer ring and either has 3 live neighbours, or has 2 and is alive. The neighbours are counted as a set of coordinates. |
| Conway.NextAtCell | src/main.rs:130-133 | On an n-by-n board the loop visits cell (x, y) at its own index, and the step there is `should_crab_live(x, y)`. |
| Conway.SiblingCountIsNeighbourCount | src/main.rs:95-121 | For an interior cell the live-sibling count equals the number of live Moore neighbours. |
| Conway.SiblingsAreNeighbours | src/main.rs:104-111 | On an n-by-n board sibling k is the state of the k-th neighbour cell. |
| Conway.PickedCount | src/main.rs:121 | The set of neighbours picked by the live siblings has as many elements as there are live siblings. |
| Scenarios.RuleOnFive | src/main.rs:95-126 | On a 5-by-5 board a border cell dies. An interior cell lives exactly when the cells at storage distance 1, 4, 5 and 6 on either side hold 3 live crabs, or hold 2 and the cell is alive. |
| Scenarios.CellAfterStep | src/main.rs:129-143 | The same statement for cell (x, y) of `Next` on a 5-by-5 board. |
| Scenarios.LoneCrabDies | src/main.rs:117-143 | A board with only the centre crab alive becomes empty. |
| Scenarios.BlinkerTurns | src/main.rs:117-143 | The horizontal triple (1,2), (2,2), (3,2) becomes the vertical triple (2,1), (2,2), (2,3). |
| Scenarios.ConcreteScenarios | src/main.rs:117-143 | The same two generations, evaluated on the concrete boards. |

## Left out

- `main`, the window, the event loop and the `pixels` surface are not modelled: they are platform I/O around the engine.
- Engine.World.constructor: the random fill of the cells (`rand::random`) is replaced by a `seed` parameter of width * height cells, because randomness cannot be modelled as a value.
- Engine.World.constructor: zero dimensions are not rejected. `new` allocates an empty world for them, and the model does the same instead of adding a rejection the code does not have.
- Engine.World.Draw: the source does not require the frame's length to equal 4 * width * height; `chunks_exact_mut(..).nth(i).unwrap()` only panics when the frame is too short. The model therefore requires only `4 * len <= frame.Length` and proves the bytes past that unchanged.
- Panics are modelled as preconditions:
  - an out-of-range index in `get_crab`, `set_crab` and the sibling reads;
  - the `unwrap` on a short frame;
  - the `usize` underflow of `height - 1` and `width - 1` in the border test, which panics in debug builds (`SiblingsDefined`).
- Index arithmetic is unbounded in the model. The `usize` sums and products `x + height * y` (src/main.rs:87, 90, 104-111) would panic on overflow in a debug build, and the bound requirements on every index already exclude that. The silent wrap-around of a release build is not modelled.
- The iterator machinery of `get_crabs_siblings` and `filter(..).count()` is modelled as sequences and a count, because only the values it yields are observable.
- The model states exactly which boards go wrong. On non-square boards with at least one column and more than one row, the decoding `(i % width, i / width)` in `draw` disagrees with the storage encoding `x + height * y` (`DecodeEncodeExactly`). On boards with `1 <= width < height`, the last cell is out of bounds (`EncodingFitsExactly`, `CornerOutside`). A board with no columns has no cells and nothing goes wrong on it. These are not listed as findings, because the host only builds square worlds. `Draw` carries `EncodingFits` as a precondition; the mapping itself is left as written.
- Conway.NextIsLife: it is stated for square boards only. `Draw` also accepts non-square boards in two cases:
  - Boards with an interior cell, i.e. `3 <= height < width`. There the cell evaluated at loop index i is in general not the cell stored at i (see `DecodeEncodeExactly`), so the step is not Conway's rule on (x, y) coordinates.
  - Boards with at most two rows. There every cell is on the border and dies, which the dead-rim reference also gives. The model does not state this case as a lemma.
