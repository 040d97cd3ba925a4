# Blocked two-dimensional arrays and image rotation

This project is a Dafny model of two pieces of a CS 40 image-rotation assignment.

- **`uarray2b.c`, the blocked two-dimensional array.** A `width x height` grid of elements is stored as a `ceil(width / bs) x ceil(height / bs)` table of blocks, where `bs` is the block size. Each block is a flat buffer of `bs * bs` slots. Cell `(col, row)` lives in block `(col / bs, row / bs)` at index `bs * (row % bs) + col % bs`. `UArray2b_map` visits the blocks in row-major order and the cells of each block in row-major order. It clips the partial blocks on the right and bottom edges.
- **The rotation part of `ppmtrans.c`.**
  - It models the check `main` makes of the `-rotate` value.
  - It models the callbacks `rotate_0`, `rotate_90` and `rotate_180`: each sends an input pixel to its destination coordinate and copies it there.
  - It models `rotate_img`, which sizes a fresh destination image and maps the callback over the input image.

The model has three modules, one file each.

- `block_layout.dfy` (module `BlockLayout`) holds the pure index arithmetic:
  - the slot function `At` and its inverse `CellOf`;
  - the block count `CeilDiv` and the edge extent `EndSmall`;
  - the block size of `UArray2b_new_64K_block`;
  - the visit order of `UArray2b_map`, defined as the sequence `BlockMajor` of `(col, row)` pairs.

  The lemmas about `BlockMajor` state coverage, ordering, length, no repeats and contiguity of blocks.
- `uarray2b.dfy` (module `UArray2b`) holds the class `Array2b<T>`.
  - The block table is an `array2<array?<T>>`, indexed `[blockCol, blockRow]`. Each entry is a block buffer of `bs * bs` slots.
  - The ghost field `Contents[row][col]` is the grid the table represents. `Valid()` ties every cell to the slot `At` names and requires the buffers to be pairwise distinct.
  - The constructor and `New64KBlock` fill the table in the source's nested loops.
  - `Get` and `Set` read and write through the slot `UArray2b_at` computes.
  - `ApplyOnBlock` and `MapOrder` are the nested traversal loops, proved to produce `BlockMajor`.
  - `Map(f)` runs an apply function that replaces each element by `f(col, row, element)`.
- `ppmtrans.dfy` (module `PpmTrans`) holds the rotations:
  - `AcceptRotation`, the rotation whitelist;
  - `Destination` and its inverse `Origin`, the callbacks' coordinate maps;
  - the class `Ppm<T>` for an image;
  - the callback methods `Rotate0`, `Rotate90` and `Rotate180`;
  - `RotateImg`.

  `RotateImg` is proved to leave the destination equal to `Rotated`, the pure rotation of the input grid. `DestinationsExactlyOnce` proves that the block-major map writes each destination pixel exactly once.

The four accessors `UArray2b_width`, `UArray2b_height`, `UArray2b_size` and `UArray2b_blocksize` are the `const` fields `width`, `height`, `size` and `blocksize` of `Array2b`. The constructor states their values, and they never change.

Some modelling choices:

- **Floating point.** `ceil((double) n / bs)` is the integer `CeilDiv(n, bs) == (n + bs - 1) / bs`. `ceil(sqrt(n))` for an integer `n` is `CeilSqrt(n)`, the least `k` with `k * k >= n`.
- **The apply callback and its closure.** For `Map` they become a pure function `f`. For `RotateImg` they become the rotation callback together with the destination image.
- **Traversal order.** `MapOrder` runs the traversal loops and returns the visits; the apply step then runs in that order. This matches the interleaved original: visiting a cell never depends on what an earlier apply did, and the rotation callbacks never touch the input grid.
- **The 64K block size.** The comments of `UArray2b_new_64K_block` (`uarray2b.c:127-128` and `uarray2b.c:148-150`) promise a block that occupies at most 64K of memory. The code at `uarray2b.c:151` takes the ceiling of the square root, so the block can be larger than that. The model follows the code: `BlockSize64KOvershoots` proves that 3-byte elements get 148 x 148 blocks, which take 65712 bytes, more than 65536.
- **270 degrees.** The header comment of `ppmtrans.c` mentions 270-degree rotations, but `main` rejects every value except 0, 90 and 180. The model follows the code.

## Model

| member | source | states |
|---|---|---|
| BlockLayout.CeilDiv | uarray2b.c:91-92 | the number of blocks q along an axis of n cells covers the axis (n <= q * bs) and wastes less than one block (q * bs < n + bs) |
| BlockLayout.CeilSqrt | uarray2b.c:151 | the result k satisfies k * k >= n, and k - 1 does not (or k == 0): the integer ceiling of the square root |
| BlockLayout.CeilSqrtUnique | uarray2b.c:151 | any k with those two properties equals CeilSqrt(n), so the ceiling square root is uniquely determined |
| BlockLayout.BlockSize64K | uarray2b.c:142-152 | the block size is 1 when size > 65536; it is always >= 1, so UArray2b_new's requirement holds; for size <= 65536 it is the least bs with bs * bs >= 65536 / size (its square reaches 65536 / size, and (bs - 1)^2 does not), and a block one element narrower fits in 65536 bytes |
| BlockLayout.BlockFits | uarray2b.c:151 | for 0 < size <= 65536, ceil(sqrt(65536 / size)) is positive and (k - 1)^2 * size < 65536 |
| BlockLayout.BlockSize64KOvershoots | uarray2b.c:151 | for 3-byte elements the block size is 148, and 148 * 148 * 3 > 65536: the 64K budget is not guaranteed |
| BlockLayout.At | uarray2b.c:271-283 | for 0 <= col < width and 0 <= row < height, the block coordinate lies inside the CeilDiv(width) x CeilDiv(height) table and the index lies inside the bs * bs buffer |
| BlockLayout.AtRoundTrip | uarray2b.c:274-283 | the slot At computes determines the cell: CellOf(At(col, row)) == (col, row) |
| BlockLayout.CellOfRoundTrip | uarray2b.c:274-283 | every slot of a table block whose cell lies in the grid is the slot At computes for that cell |
| BlockLayout.AtInjective | uarray2b.c:274-287 | distinct in-range cells are stored in distinct slots |
| BlockLayout.EndSmall | uarray2b.c:338-351 | for every block of the table the extent is bs if the block ends inside the axis; otherwise it is n % bs, which equals n - b * bs and lies in 1..bs-1 |
| BlockLayout.AxisMember | uarray2b.c:403-411 | along one axis, the offsets a block's loop visits are exactly the axis cells whose block coordinate is that block's |
| BlockLayout.BlockVisitsMembers | uarray2b.c:403-414 | apply_on_block visits exactly the cells of the endCol x endRow corner of its block |
| BlockLayout.BlockVisitsLength | uarray2b.c:403-414 | apply_on_block makes endCol * endRow calls |
| BlockLayout.BlockVisitsSorted | uarray2b.c:403-411 | inside a block the visits are in row-major order |
| BlockLayout.BlockMembers | uarray2b.c:338-358 | with the extents of uarray2b_map, a block's visits are exactly the grid cells in that block, so no padding slot is visited |
| BlockLayout.BlockRowMembers | uarray2b.c:333-358 | the first nCols blocks of a block row visit exactly the grid cells of that block row with block column < nCols |
| BlockLayout.BlockRowSorted | uarray2b.c:333-358 | the visits of a block row are in block-major order |
| BlockLayout.BlockRowLength | uarray2b.c:333-358 | the first nCols blocks of a block row make Min(nCols * bs, width) * (the block row's height) visits |
| BlockLayout.BlockRowsMembers | uarray2b.c:332-360 | the first nRows block rows visit exactly the grid cells with block row < nRows |
| BlockLayout.BlockRowsSorted | uarray2b.c:332-360 | the visits of the first nRows block rows are in block-major order |
| BlockLayout.BlockRowsLength | uarray2b.c:332-360 | the first nRows block rows make Min(nRows * bs, height) * width visits |
| BlockLayout.BlockMajorCoverage | uarray2b.c:332-358 | uarray2b_map visits a coordinate if and only if it lies in the grid |
| BlockLayout.BlockMajorOrdered | uarray2b.c:332-334 | the visits are ordered by block row, then block column, then row and column inside the block |
| BlockLayout.BlockMajorLength | uarray2b.c:332-358 | uarray2b_map calls apply width * height times |
| BlockLayout.BlockMajorNoRepeats | uarray2b.c:332-358 | no coordinate is visited twice, so with coverage every cell is visited exactly once |
| BlockLayout.BlockMajorVisit | uarray2b.c:332-358 | the k-th visit is an in-grid cell that no earlier visit named |
| BlockLayout.BlockMajorBlocksContiguous | uarray2b.c:332-358 | all visits of one block are consecutive |
| UArray2b.Array2b.New | uarray2b.c:68-118 | under the source's assertions, a valid array that stores exactly the given width, height, size and block size, has a CeilDiv(width) x CeilDiv(height) table of pairwise distinct bs * bs buffers (partial edge blocks included), and whose cells all hold init |
| UArray2b.Array2b.New64KBlock | uarray2b.c:133-157 | like New, with block size BlockSize64K(size) |
| UArray2b.Array2b.Get | uarray2b.c:264-288 | reading through the slot At computes yields the cell's element |
| UArray2b.Array2b.Set | uarray2b.c:264-288 | writing through that slot changes that cell to v and no other cell, and keeps the array valid; a Get of that cell then returns v |
| UArray2b.Array2b.ApplyOnBlock | uarray2b.c:392-417 | the nested small_row / small_col loops visit BlockVisits: the endSmallCol x endSmallRow corner of the block, row by row |
| UArray2b.Array2b.MapOrder | uarray2b.c:314-361 | the nested block_row / block_col loops with their edge extents visit exactly BlockMajor, in order (so every property of BlockMajor above holds of the source's traversal) |
| UArray2b.Array2b.ApplyAt | uarray2b.c:412-414 | one apply call at an unvisited cell replaces that cell's original element by f of it and changes nothing else |
| UArray2b.Array2b.Map | uarray2b.c:314-361 | the apply function is called in BlockMajor order, and afterwards every cell holds f(col, row, old element): each cell is updated exactly once |
| PpmTrans.AcceptRotation | ppmtrans.c:99-104 | a rotation is accepted if and only if it is 0, 90 or 180, and an accepted rotation has that many degrees |
| PpmTrans.Destination | ppmtrans.c:227-268 | the destination each callback computes for an input pixel lies inside the destination image |
| PpmTrans.Origin | ppmtrans.c:244-268 | every destination pixel has an input pixel that the callback sends to it, so each callback's map is onto |
| PpmTrans.OriginOfDestination | ppmtrans.c:244-268 | Origin undoes Destination, so each callback's map is one-to-one: with Origin it is a bijection between the two grids |
| PpmTrans.HalfTurnSelfInverse | ppmtrans.c:264-268 | the 180-degree map applied twice gives back the pixel |
| PpmTrans.Rotated | ppmtrans.c:180-212 | the rotation of a grid of RotatedSize(rotation) is a grid of the destination's dimensions |
| PpmTrans.RotatedMovesPixel | ppmtrans.c:230-275 | in the rotated image, every input pixel's value sits at its destination |
| PpmTrans.HalfTurnTwice | ppmtrans.c:257-276 | rotating an image by 180 degrees twice gives back the image |
| PpmTrans.VisitsInSource | ppmtrans.c:188-210 | every pixel the map visits is a valid input to the callback |
| PpmTrans.DestinationsDistinct | ppmtrans.c:188-210 | no two visits write the same destination pixel |
| PpmTrans.DestinationsCovered | ppmtrans.c:188-210 | every destination pixel is written by some visit |
| PpmTrans.DestinationsExactlyOnce | ppmtrans.c:188-210 | mapped over the block-major traversal, each callback writes every destination pixel exactly once |
| PpmTrans.Ppm.constructor | ppmtrans.c:172-185 | an image built from a valid pixel grid of its own dimensions is valid and holds exactly the given width, height, denominator and pixels |
| PpmTrans.Rotate0 | ppmtrans.c:221-236 | copies the input pixel to the same coordinate and changes no other destination pixel |
| PpmTrans.Rotate90 | ppmtrans.c:238-255 | copies the input pixel to (H - row - 1, col), H being the destination width, and changes no other destination pixel |
| PpmTrans.Rotate180 | ppmtrans.c:257-276 | copies the input pixel to (W - col - 1, H - row - 1) and changes no other destination pixel |
| PpmTrans.RotatePixel | ppmtrans.c:180-212 | the callback chosen for the rotation writes the pixel at its destination only |
| PpmTrans.RotateStep | ppmtrans.c:188-210 | one callback during the map: the destination grows by that pixel, and the input image is unchanged |
| PpmTrans.MapRotate | ppmtrans.c:188-210 | mapping the callback over the input leaves the destination, whatever it held before, equal to exactly the rotated image, and leaves the input unchanged |
| PpmTrans.RotateImg | ppmtrans.c:166-219 | a fresh image with dimensions swapped for 90 degrees and kept for 0 and 180, the input's denominator, and pixels equal to the rotation of the input's pixels |

## Left out

- File and image I/O (`create_file`, `Pnm_ppmread`, `Pnm_ppmwrite`, `Pnm_ppmfree`, stdout) deals in files and in PPM routines that are not part of this model.
- Command-line parsing in `main` (`strcmp` dispatch, `usage`, `exit`, `SET_METHODS`) is argv handling with process exit. Only the rotation whitelist is modelled.
- AcceptRotation: the `strtol` end-pointer check ("not a number") is not modelled. The function takes the already parsed integer.
- Timing (`CPUTime_*`, `print_time`) is floating point, clocks and file output.
- `UArray2b_free` and `malloc`/`free` are manual memory management. The only content of `UArray2b_free` that counts here is its block counts, which are `CeilDiv`.
- The `NULL` assertions are implied by Dafny's non-null references.
- The UArray, UArray2 and A2Methods libraries, with `a2blocked.c` and `a2plain.c`, are not part of this model.
  - A block is a Dafny `array`, and the block table is an `array2`.
  - The plain row-major and column-major method suites are not modelled. RotateImg covers the blocked suite only, and it builds its destination with `New64KBlock`.
- UArray2b.Array2b.New: UArray_new's initial contents are not visible, so fresh cells hold a caller-given `init` value.
- Elements are a generic type `T` rather than `size` bytes behind `void *`. `size` is still stored and returned.
- The `methods` field of the image struct is not modelled. Only width, height, denominator and pixels are. The pixel size `sizeof(struct Pnm_rgb)` is the parameter `pixelSize`.
- UArray2b.Array2b.Map: the apply function is pure and sees only `(col, row, element)`. Apply functions that read other cells, write anywhere else or use the closure `cl` are not modelled.
- 32-bit `int` overflow is not modelled. All arithmetic, for example `blocksize * blocksize`, `(block_col + 1) * blocksize` and `width * height`, is on unbounded integers.
- Floating-point `ceil` and `sqrt` are replaced by the integer functions `CeilDiv` and `CeilSqrt`. These agree with the double computations for the values an `int` can hold only if the doubles round correctly. That rounding is not modelled.
