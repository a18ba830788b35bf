# Image segmentation by the best rectangle — a Dafny model

`segment` in `image_segmentation.cpp` splits an `nx` x `ny` colour image into two regions: one axis-aligned rectangle, and everything outside it. Each region is painted with its mean colour. Among all rectangles it picks the one with the least total squared error. It works on channel 0 of the interleaved pixel buffer in three stages:

1. **Integral image.** An `(nx + 1) x (ny + 1)` table of prefix sums is stored row by row in one flat buffer. Row 0 and column 0 are zero, and every other entry comes from a recurrence. The last entry is the sum of the whole image.
2. **Per-shape search.** The kernel `mykernel` runs one thread per shape `(width, height)`.
   - The thread scans every top-left position of its shape, rows outer and columns inner.
   - At each position it gets the inner sum from four table lookups, and the outer sum as total minus inner.
   - The score is `inner² / inner area + outer² / outer area`.
   - The thread keeps the first position whose score is strictly greater than the best so far, starting from -1729.
   - It writes the value, the position and the shape into the shape's slot `nx * (height - 1) + (width - 1)`.
   - The grid is `divup(nx + 1, 16) x divup(ny + 1, 16)` blocks of 16 x 16 threads. Threads whose shape does not fit return at once.
3. **Reduction and statistics.**
   - A strict `>` scan from -1.0 picks the first slot with the largest value.
   - The winner's inner and outer sums are recomputed from the table and divided by their areas.
   - Each mean is copied into all three channels of `Result`.

The model has five modules, one per file:

- `Sums` (`sums.dfy`): finite sums over a rectangle of a field `(int, int) -> real`. It covers splitting, inclusion-exclusion, linearity, masks inside and outside a rectangle, and the completing-the-square step behind the error identity.
- `Images` (`images.dfy`): the image, rectangles, the candidate set, the canonical order of candidates, inner and outer sums, areas, means, the score, and the squared error of the two-colour approximation.
- `Integral` (`integral.dfy`): the flat table layout and `BuildTable`, which fills a Dafny array with the source's loops, then the four-lookup sum and the total.
- `Search` (`search.dfy`): `divup`, the slot layout, and the kernel's value with NaN made explicit. `ScanShape` is one thread's loop. `Kernel` is one thread, with its early return and its five writes. `Launch` runs every thread of the grid, one after another.
- `Segmentation` (`segment.dfy`): the reduction `Reduce`, the `Result` record, and `Segment` end to end. Its headline property: the rectangle returned is `Optimal`. That is, no candidate scores higher, every candidate before it in the canonical order scores strictly lower, and it has the least squared error of all candidates.

`Search.Kernel` and `Integral.FillInterior` work on Dafny arrays, and their contracts speak of the state before and after the call. The properties they establish are stated again over sequences by `Search.KernelExtends`, `Search.Launch`, `Integral.BuildTable` and `Segmentation.Segment`.

How the source's special cases are modelled:

- **Candidates.** A rectangle counts as a candidate when it leaves at least one pixel outside. Such rectangles are exactly those smaller than the whole image.
- **The whole-image shape.** The kernel does scan this shape too. Its outer area is 0, so `scale_out` is infinite. `segment` passes the table's own last entry as `total_sum`, so the outer sum is exactly 0 (`TotalMatches`, required by `ScanShape`, `Kernel` and `Launch`). The score is then infinity times 0, which is NaN. NaN never compares greater, so that slot keeps -1729. The model represents a kernel value as `Value = Num(real) | NaN` and proves that the whole-image slot holds the sentinel and is never picked on an image of two or more pixels.
- **One-pixel image.** The only shape is the whole image, so the reduction picks slot 0: the single pixel. The outer mean is then 0 / 0. `Result.outer` is therefore a sequence of `Value`, and `Segment` returns NaN there.
- **Arithmetic.** Pixel values and sums are exact `real`s.

## Model

| member | source | states |
|---|---|---|
| Sums.InclusionExclusion | image_segmentation.cpp:56 | the sum over a rectangle equals the prefix at its bottom-right corner, minus the prefixes at its top-right and bottom-left corners, plus the one at its top-left corner |
| Images.Conservation | image_segmentation.cpp:57 | for every rectangle in the image, the inner sum plus the outer sum is the sum of the whole image |
| Images.OnlyWholeImageFills | image_segmentation.cpp:43-44 | a rectangle in the image leaves no pixel outside exactly when it is the whole image |
| Images.AreasPositive | image_segmentation.cpp:43-46 | for a candidate, both the inner and the outer area are at least 1, so both reciprocals exist |
| Images.ScoreNonNegative | image_segmentation.cpp:62-65 | the score of every candidate is at least 0, so it lies above both sentinels, -1729 and -1.0 |
| Images.InnerError | image_segmentation.cpp:59-60 | the squared deviation from the inner mean, summed over the rectangle, is the sum of squares inside minus inner² / inner area |
| Images.OuterError | image_segmentation.cpp:59-60 | the squared deviation from the outer mean, summed over the pixels outside, is the sum of squares outside minus outer² / outer area |
| Images.SquaredErrorIdentity | image_segmentation.cpp:59-65 | the total squared error of painting each region with its mean equals the sum of all squared pixels minus the score |
| Images.HigherScoreLowerError | image_segmentation.cpp:59-60 | for any two candidates, one scores at least as high as the other if and only if its squared error is at most the other's |
| Integral.AtInRange | image_segmentation.cpp:94 | every table entry (i, j) has its flat position i + (nx + 1) * j inside the buffer of (nx + 1) * (ny + 1) entries |
| Integral.AtInjective | image_segmentation.cpp:106 | two entries share a flat position if and only if they are the same entry |
| Integral.PrefixEdges | image_segmentation.cpp:96-102 | the prefix sums of row 0 and of column 0 are zero, the values the first two loops store |
| Integral.PrefixStep | image_segmentation.cpp:106 | the prefix sum at (i, j) is the pixel (i - 1, j - 1), plus the entries above and to the left, minus the one diagonally above-left |
| Integral.BuildTable | image_segmentation.cpp:94-108 | the table returned has (nx + 1) * (ny + 1) entries, and entry (i, j) is the sum of channel 0 over the columns before i of the rows before j |
| Integral.FillInterior | image_segmentation.cpp:104-108 | given row 0 and column 0, the recurrence loops leave every entry holding its prefix sum |
| Integral.RectFromTableIsInnerSum | image_segmentation.cpp:56 | on the integral image, the four lookups at a rectangle's corners give the sum of channel 0 inside it |
| Integral.TotalFromTableIsTotalSum | image_segmentation.cpp:109 | the last entry of the integral image is the sum of every pixel |
| Integral.OuterFromTable | image_segmentation.cpp:57 | total minus the four-lookup inner sum is the sum of channel 0 over the pixels outside the rectangle |
| Search.DivUpCovers | image_segmentation.cpp:19-21 | divup(a, b) * b >= a, so the grid has a thread for every shape |
| Search.DivUpLeast | image_segmentation.cpp:19-21 | (divup(a, b) - 1) * b < a for a >= 0, so the grid is the smallest one that covers a |
| Search.SlotInRange | image_segmentation.cpp:76 | the slot of every shape with 1 <= width <= nx and 1 <= height <= ny lies in [0, nx * ny) |
| Search.SlotOrder | image_segmentation.cpp:76 | slots are ordered by height, then width, and two shapes share a slot if and only if they are the same shape |
| Search.SlotCoverage | image_segmentation.cpp:76-80 | every slot k belongs to the shape (k % nx + 1, k / nx + 1) |
| Search.ObjectiveIsScore | image_segmentation.cpp:43-65 | on the integral image, the kernel's value for a candidate is a number, and that number is its score |
| Search.WholeImageIsNaN | image_segmentation.cpp:44-46 | a rectangle in the image that is not a candidate is the whole image, its outer sum from the table is 0, and its kernel value is NaN |
| Search.ScanShape | image_segmentation.cpp:50-72 | the position returned is one where the shape fits, and no position's value exceeds the value returned. If that value is still -1729, the position is (0, 0). Otherwise it is the value at the position returned, and every earlier position in scan order has a strictly smaller value |
| Search.SlotEntries | image_segmentation.cpp:76-80 | a filled slot records a position where its shape fits, and the shape itself |
| Search.SlotHoldsFrame | image_segmentation.cpp:76-80 | a slot keeps its meaning while its own five entries are left unchanged |
| Search.Kernel | image_segmentation.cpp:33-81 | a thread whose shape does not fit writes nothing; any other thread fills its own shape's slot with its scan's outcome and leaves every other entry unchanged |
| Search.KernelExtends | image_segmentation.cpp:127-129 | after thread (gx, gy), every shape up to that thread in launch order has its slot filled |
| Search.Launch | image_segmentation.cpp:111-129 | after the whole grid, every shape 1 <= width <= nx, 1 <= height <= ny has its slot filled |
| Segmentation.Reduce | image_segmentation.cpp:141-149 | if some value exceeds -1.0, the index returned holds the largest value and every earlier index holds a strictly smaller one; otherwise it is 0 |
| Segmentation.CandidateShapeSlot | image_segmentation.cpp:68-80 | the slot of a shape smaller than the image holds the score of a candidate of that shape; no candidate of that shape scores higher, and every one scanned earlier scores strictly lower |
| Segmentation.WholeShapeSlot | image_segmentation.cpp:50 | the slot of the whole-image shape keeps the sentinel -1729 |
| Segmentation.SomeSlotAboveFloor | image_segmentation.cpp:141-145 | on an image of two or more pixels, some slot exceeds the reduction's start value -1.0 |
| Segmentation.PickedShape | image_segmentation.cpp:151-152 | a slot above -1.0 records its own shape, and that shape is smaller than the image |
| Segmentation.WinnerIsOptimal | image_segmentation.cpp:141-158 | on an image of two or more pixels, the rectangle in the picked slot is a candidate; no candidate scores higher, and every candidate before it in the canonical order scores strictly lower |
| Segmentation.SinglePixelWinner | image_segmentation.cpp:141-158 | on a one-pixel image the reduction picks slot 0, which records the pixel itself |
| Segmentation.PickedRectangle | image_segmentation.cpp:141-161 | the picked rectangle lies in the image; with two or more pixels it is Optimal and its outer area is positive, and with one pixel it is that pixel and its outer area is 0 |
| Segmentation.OptimalUnique | image_segmentation.cpp:68 | at most one rectangle is Optimal, because of the strict comparisons |
| Segmentation.OptimalMinimisesError | image_segmentation.cpp:59-60 | an Optimal rectangle has squared error no larger than any other candidate's |
| Segmentation.Segment | image_segmentation.cpp:92-171 | the result lies in the image, and with two or more pixels it is the Optimal rectangle, with the inner and outer means in all three channels; a one-pixel image returns that pixel, its value as the inner colour, and NaN as the outer colour |

## Left out

- CUDA plumbing: `check` and `CHECK`, which exit on a device error, and `cudaMalloc`, `cudaMemcpy` and `cudaFree` (lines 24-31 and 115-138). The table is handed to the kernel model directly, and the result buffers are the host vectors.
- Parallel execution: the kernel's threads run one after another, ordered by global thread index. The split into `threadIdx` and `blockIdx` is collapsed into that index. The order is immaterial, because distinct shapes write disjoint slots, as `SlotOrder` and `Kernel` show.
- IEEE float arithmetic: values, sums, reciprocals and means are exact reals, and the model does not capture float rounding. NaN appears only where the source computes it from a zero area: the whole-image shape's score and the one-pixel image's outer mean. Infinity is not represented: with the total that `segment` passes, the infinite `scale_out` only ever multiplies an outer sum of exactly 0.
- 32-bit integer overflow in the index arithmetic and in `4 * nx * ny` is not modelled; integers are unbounded.
- The `#include`s, `<chrono>`, and the unused `optimal_final` after the reduction.
- Search.Kernel: `mykernel` called with a `total_sum` other than the table's whole-image sum would store +infinity in the whole-image slot, since infinity times a nonzero outer sum, squared, is +infinity. `ScanShape`, `Kernel` and `Launch` require `TotalMatches`, which the only launch (lines 109 and 129) meets, so that case is not modelled.
- Segmentation.Segment: requires nx > 0 and ny > 0, through `ValidImage`. With an empty image the source's `location` vector (line 112) is empty, and line 151 reads `location[4 * k + 2]` out of bounds, which is undefined behaviour; the model does not describe it.
