# MegEngine CPU image kernels: index arithmetic and table filling, in Dafny

This project models three pieces of MegEngine's CPU image operators. In each, the
integer structure can be stated exactly without modelling floating point or the
external kernels they call.

- **Separable convolution kernel synthesis** (`SeparableConv`, `separable_conv.dfy`).
  The naive `SeparableConvForwardImpl::exec` expands the per-channel-pair 1D filters
  `filter_x` and `filter_y` into the dense `[oc, ic, kh, kw]` kernel, with `kh == kw`.
  A triple loop writes the kernel through a running counter `k_pos` while the read
  offsets `kerx` and `kery` advance by `kw` per pair. The model keeps the arrays and
  the loops: `SynthesizeKernel` runs the pair loop, `WritePair` the row loop and
  `WriteRow` the column loop. The result is proved to be the outer product
  `ker2d[(cn*kh + h)*kw + w] == filter_x[cn*kw + w] * filter_y[cn*kw + h]`, written
  once per entry in increasing order. The element type is abstract: a type `F` with
  the float product `mul`.
- **Perspective-warp tiling and fixed-point tables** (`WarpPerspective`, `warp_perspective.dfy`).
  It covers:
  - tile sizing under the 32 x 32 stack budget;
  - the task count `parallelism_batch`;
  - the decomposition of the thread pool's flat index into a batch image and a tile;
  - the clamped tile of a task;
  - the exec entry's channel and dtype checks;
  - the per-tile loops that fill the coordinate table `XY` and the sub-pixel table `A`.

  The tiles are proved to partition the destination, and the tasks to cover every
  pixel of every batch image exactly once. The LINEAR split into an integer part
  and a sub-pixel bin is proved exact.
- **Gaussian-blur dispatch and fixed-point coefficients** (`GaussianBlur`, `gaussian_blur.dfy`).
  It covers:
  - the Float32/Uint8 dispatch;
  - the rejection of `BORDER_ISOLATED`;
  - the 8-bit path's quantization `static_cast<int>(k * 2^8)` of both 1D kernels;
  - the column filter's `2 * bits` shift;
  - which 1D kernel feeds which filter;
  - the batch loop calling `filter.apply` once per image, in order.

`Common` (`common.dfy`) holds the shared vocabulary:
- the error-carrying `Result`;
- `DType`;
- `div_ceil`, `1 << n` and the two 16-bit casts;
- the facts about Euclidean division that the flat-index proofs rest on.

## Model

| member | source | states |
|---|---|---|
| SeparableConv.SynthesizeKernel | dnn/src/naive/separable_conv/opr_impl.cpp:28-51 | `kw`, `ic`, `oc` are dimensions 3, 1, 0 of `filter_x`'s shape; the synthesized kernel has `oc*ic*kw*kw` entries (kh == kw) and is the outer-product kernel `IsKernel2D` of the filters; `k_pos` takes the values 0, 1, ..., `oc*ic*kw*kw - 1` in order; its frame lets it modify only the new kernel, so the filters are only read |
| SeparableConv.WritePair | dnn/src/naive/separable_conv/opr_impl.cpp:44-48 | the row loop of one channel pair writes that pair's kw x kw block at `k_pos .. k_pos + kw*kw`, continuing the expected layout and leaving every entry before `k_pos` and from `k_pos + kw*kw` on unchanged |
| SeparableConv.WriteRow | dnn/src/naive/separable_conv/opr_impl.cpp:45-47 | the column loop writes `kerx[w] * kery[h]` at `k_pos + w` for w < kw, advances the counter by kw and changes nothing before `k_pos` or from `k_pos + kw` on |
| SeparableConv.KernelIndex | dnn/src/naive/separable_conv/opr_impl.cpp:46 | definition: the flat position `(cn*kh + h)*kw + w` of entry (cn, h, w), kh == kw; its laws are `KernelIndexInRange`, `KernelIndexInjective` and `KernelIndexFlat` |
| SeparableConv.KernelEntry | dnn/src/naive/separable_conv/opr_impl.cpp:46 | definition: entry k of the dense kernel, k split by div/mod into pair, row h and column w, is `filter_x[cn*kw + w] * filter_y[cn*kw + h]`; `Kernel2DAt` states it at every `KernelIndex` |
| SeparableConv.IsKernel2D | dnn/src/naive/separable_conv/opr_impl.cpp:34-46 | definition: a buffer of `oc*ic*kh*kw` entries whose entry k is `KernelEntry(k)`; `SynthesizeKernel` ensures it of its result |
| SeparableConv.Kernel2D | dnn/src/naive/separable_conv/opr_impl.cpp:43-51 | a dense kernel with `pairs*kw*kw` entries, each entry the product its flat index designates |
| SeparableConv.Kernel2DAt | dnn/src/naive/separable_conv/opr_impl.cpp:43-51 | outer-product law: for cn < ic*oc, h < kh, w < kw, entry `(cn*kh + h)*kw + w` is `filter_x[cn*kw + w] * filter_y[cn*kw + h]`, and both reads are inside `[0, oc*ic*kw)` |
| SeparableConv.KernelIndexInRange | dnn/src/naive/separable_conv/opr_impl.cpp:34-46 | every index `(cn*kh + h)*kw + w` written lies inside the `oc*ic*kh*kw` buffer |
| SeparableConv.KernelIndexInjective | dnn/src/naive/separable_conv/opr_impl.cpp:43-46 | distinct (cn, h, w) triples are written at distinct positions: no entry is written twice |
| SeparableConv.KernelIndexFlat | dnn/src/naive/separable_conv/opr_impl.cpp:42-48 | the index `(cn*kh + h)*kw + w` of entry (cn, h, w) equals the row-major flat index `cn*kh*kw + h*kw + w` |
| SeparableConv.Kernel2DRow | dnn/src/naive/separable_conv/opr_impl.cpp:44-47 | rank one: row h of pair cn is the pair's filter_x scaled by its filter_y[h] |
| SeparableConv.Kernel2DCell | dnn/src/naive/separable_conv/opr_impl.cpp:45-46 | the outer-product law for the entry at offset w from the start of row h of pair cn |
| SeparableConv.Kernel2DRowLaw | dnn/src/naive/separable_conv/opr_impl.cpp:43-48 | every row of every pair of the dense kernel obeys the rank-one row law |
| SeparableConv.Kernel2DRowsFrom | dnn/src/naive/separable_conv/opr_impl.cpp:44-48 | a kernel obeying the row law is laid out, from row h of pair c on, row after row as the row loop writes it |
| SeparableConv.Kernel2DPairsAt | dnn/src/naive/separable_conv/opr_impl.cpp:43-51 | a kernel obeying the row law is laid out, from pair c on, block after block as the pair loop writes it, ending at the last entry |
| SeparableConv.RowsFromAgree | dnn/src/naive/separable_conv/opr_impl.cpp:44-48 | the row layout determines the entries it covers |
| SeparableConv.PairsAtAgree | dnn/src/naive/separable_conv/opr_impl.cpp:43-51 | the block layout determines every entry from its start to the end of the kernel |
| SeparableConv.LayoutExists | dnn/src/naive/separable_conv/opr_impl.cpp:42-51 | some sequence of `pairs*kw*kw` entries has the layout the loops write |
| SeparableConv.LayoutIsKernel2D | dnn/src/naive/separable_conv/opr_impl.cpp:42-51 | whatever has the layout the loops write is the outer-product kernel |
| Common.Upto | dnn/src/naive/separable_conv/opr_impl.cpp:42-48 | the record of counter values has one entry per increment |
| Common.UptoAt | dnn/src/naive/separable_conv/opr_impl.cpp:42-48 | entry i of the counter record is i: every index once, in increasing order |
| Common.UptoSnoc | dnn/src/naive/separable_conv/opr_impl.cpp:46 | one `k_pos++` appends the next index to the record |
| WarpPerspective.BlockSize | dnn/src/x86/warp_perspective/warp_perspective_cv.cpp:44-46 | for height, width >= 1: `1 <= BLOCK_SZ_H <= height`, `1 <= BLOCK_SZ_W <= width`, `BLOCK_SZ_H * BLOCK_SZ_W <= BLOCK_SZ^2`, and `BLOCK_SZ_H` is at least the first guess `min(BLOCK_SZ/2, height)`; the exec entry (:116-118) and every task use this one function |
| WarpPerspective.TileCount | dnn/src/x86/warp_perspective/warp_perspective_cv.cpp:120-121 | `parallelism_batch`, the product of the tile counts per axis, is at least 1 for a non-empty image |
| Common.Min | dnn/src/x86/warp_perspective/warp_perspective_cv.cpp:44-46 | `std::min(a, b)` is at most both arguments and equal to one of them; it also clamps `bw`, `bh` at :54-55 |
| Common.DivCeil | dnn/src/x86/warp_perspective/warp_perspective_cv.cpp:120-121 | `div_ceil(a, b)` is the least number of blocks of b that covers a |
| WarpPerspective.TaskTile | dnn/src/x86/warp_perspective/warp_perspective_cv.cpp:48-57 | for task_id below the tile count: the origin satisfies `y < height`, `x < width`; the clamped `bh`, `bw` are in `[1, BLOCK_SZ_H]`, `[1, BLOCK_SZ_W]`; the tile stays inside dst and within the block's area |
| WarpPerspective.TaskTileAt | dnn/src/x86/warp_perspective/warp_perspective_cv.cpp:48-50 | the task at tile-grid cell (ty, tx) is `ty * width_block_size + tx`, with origin `(ty*BLOCK_SZ_H, tx*BLOCK_SZ_W)` |
| WarpPerspective.TaskOf | dnn/src/x86/warp_perspective/warp_perspective_cv.cpp:48-57 | every destination pixel lies in the tile of some task below the tile count (coverage) |
| WarpPerspective.TaskOfUnique | dnn/src/x86/warp_perspective/warp_perspective_cv.cpp:48-57 | a task whose tile holds a pixel is that pixel's `TaskOf` (disjointness) |
| WarpPerspective.GridCellUnique | dnn/src/x86/warp_perspective/warp_perspective_cv.cpp:49-50 | on the row-major tile grid of `width_block_size` columns, a pixel inside the cell of task id `(id / wbs, id % wbs)` determines id: `id == (r / BLOCK_SZ_H) * wbs + c / BLOCK_SZ_W` |
| WarpPerspective.TilesPartition | dnn/src/x86/warp_perspective/warp_perspective_cv.cpp:48-57 | pixel (r, c) lies in the tile of task id exactly when id is `TaskOf(r, c)`: the tiles partition dst |
| WarpPerspective.SplitIndex | dnn/src/x86/warp_perspective/warp_perspective_cv.cpp:130-131 | `index == batch_id * parallelism_batch + task_id` with `task_id < parallelism_batch` |
| WarpPerspective.JoinIndex | dnn/src/x86/warp_perspective/warp_perspective_cv.cpp:130-131 | the flat index of (batch image, task) for task < `parallelism_batch` lies in that image's block `[batch_id*parallelism_batch, (batch_id + 1)*parallelism_batch)` |
| WarpPerspective.SplitJoin | dnn/src/x86/warp_perspective/warp_perspective_cv.cpp:130-131 | splitting the flat index of a (batch image, task) pair gives the pair back |
| WarpPerspective.SplitInBatch | dnn/src/x86/warp_perspective/warp_perspective_cv.cpp:130-134 | for `index < batch * parallelism_batch`: `batch_id < batch`, and the transform read at `batch_id*9 .. batch_id*9 + 8` is inside the `batch*9` values |
| WarpPerspective.WarpPerspectiveExec | dnn/src/x86/warp_perspective/warp_perspective_cv.cpp:111-167 | succeeds exactly for ch in {1, 2, 3} and dtype Float32 or Uint8; a bad channel count is reported before a bad dtype; on success, `batch * parallelism_batch` tasks are issued |
| WarpPerspective.DispatchPartition | dnn/src/x86/warp_perspective/warp_perspective_cv.cpp:120-143 | every pixel of every batch image is handled by exactly one issued index |
| WarpPerspective.XYCode | dnn/src/x86/warp_perspective/warp_perspective_cv.cpp:76-77 | the `XY` entry of a coordinate is a short; in NEAREST it is the coordinate itself when that fits a short; otherwise (:92-93, `saturate_cast<short>(X >> INTER_BITS)`) it is the floor of `X / INTER_TAB_SIZE` when that fits: `c * TAB <= X < (c + 1) * TAB`, also for negative X |
| WarpPerspective.AlphaCode | dnn/src/x86/warp_perspective/warp_perspective_cv.cpp:94-96 | the `A` entry is a short; with INTER_BITS <= 7 it is a bin below `INTER_TAB_SIZE^2` whose remainder by TAB is `X & (TAB - 1)` and whose quotient is `Y & (TAB - 1)` |
| WarpPerspective.Cell | dnn/src/x86/warp_perspective/warp_perspective_cv.cpp:60 | the offset `y1*bw + x1` of tile cell (y1, x1) in `A` (:80; twice it in `XY`) decodes back to its row y1 and column x1 for x1 < bw: distinct cells get distinct offsets |
| WarpPerspective.LinearCodesRecover | dnn/src/x86/warp_perspective/warp_perspective_cv.cpp:92-96 | in LINEAR mode `0 <= alpha < INTER_TAB_SIZE^2`; `X == (X >> INTER_BITS) * INTER_TAB_SIZE + (X & (INTER_TAB_SIZE - 1))`, and likewise for Y; the `XY` entries and `alpha` give X and Y back (INTER_BITS <= 7, no saturation) |
| WarpPerspective.TabSquareFits | dnn/src/x86/warp_perspective/warp_perspective_cv.cpp:94-96 | with INTER_BITS <= 7 the bin range `INTER_TAB_SIZE^2` fits a short |
| WarpPerspective.SplitRecover | dnn/src/x86/warp_perspective/warp_perspective_cv.cpp:92-96 | the same split for a table of `tab` bins per axis |
| WarpPerspective.AlphaBin | dnn/src/x86/warp_perspective/warp_perspective_cv.cpp:94-96 | the bin `fy*TAB + fx` survives the `(short)` cast and splits back into fy and fx |
| WarpPerspective.CellBefore | dnn/src/x86/warp_perspective/warp_perspective_cv.cpp:59-60 | cells of earlier tile rows lie before the start `y1 * bw` of row y1 |
| WarpPerspective.FillRow | dnn/src/x86/warp_perspective/warp_perspective_cv.cpp:64-97 | the x1 loop of row y1: `XY[(y1*bw + x1)*2 .. +1]` receive the short codes of pixel (y + y1, x + x1); outside NEAREST, `A[y1*bw + x1]` receives its bin; every cell is below `bh*bw`; earlier rows and every entry from row y1 + 1 on, and in NEAREST all of `A`, are unchanged |
| WarpPerspective.FillCells | dnn/src/x86/warp_perspective/warp_perspective_cv.cpp:66-78 | the x1 loop through the row pointers: entry x1 of the row receives the `XY` codes of pixel (y + y1, x + x1), and outside NEAREST (:81-97) its bin in `A`; nothing outside the row's `2*bw` `XY` entries and `bw` `A` entries changes, and in NEAREST nothing in `A` |
| WarpPerspective.WarpPerspectiveCv | dnn/src/x86/warp_perspective/warp_perspective_cv.cpp:36-99 | the task's tile is `TaskTile`, with the shape recomputed as in the exec entry; after the y1 loop every tile cell holds the codes of its destination pixel, at offsets below `2*bh*bw <= 2*BLOCK_SZ^2` and `bh*bw` |
| Common.SaturateShort | dnn/src/x86/warp_perspective/warp_perspective_cv.cpp:76-77 | `saturate_cast<short>` clamps into [-32768, 32767] and keeps values already in range |
| Common.ShortCast | dnn/src/x86/warp_perspective/warp_perspective_cv.cpp:94-96 | `(short)` keeps a value congruent modulo 2^16 inside the short range |
| Common.ShortCastFits | dnn/src/x86/warp_perspective/warp_perspective_cv.cpp:94-96 | a value that fits a short survives the cast unchanged |
| GaussianBlur.Trunc | dnn/src/x86/gaussian_blur/opr_impl.cpp:76-77 | `static_cast<int>` of a float rounds toward zero: within one of x, on the side of zero |
| GaussianBlur.Quantize | dnn/src/x86/gaussian_blur/opr_impl.cpp:76-77 | `static_cast<int>(k * (1 << bits))` with bits = 8 truncates `k * 256` toward zero: within one below it for k >= 0, within one above it for k < 0 (also :80-81) |
| GaussianBlur.QuantizeBounds | dnn/src/x86/gaussian_blur/opr_impl.cpp:75-82 | a non-negative coefficient k quantizes into `(k*256 - 1, k*256]` and reads back as k to within 2^-8 |
| GaussianBlur.QuantizeMono | dnn/src/x86/gaussian_blur/opr_impl.cpp:75-82 | quantization keeps the order of coefficients |
| GaussianBlur.QuantizeAll | dnn/src/x86/gaussian_blur/opr_impl.cpp:73-82 | the quantized vector has the length of its float source, entry i being `static_cast<int>(k[i] * 2^8)` |
| GaussianBlur.QuantizeInto | dnn/src/x86/gaussian_blur/opr_impl.cpp:75-82 | the loop leaves the integer kernel equal to the quantized vector |
| GaussianBlur.QuantizedProductBound | dnn/src/x86/gaussian_blur/opr_impl.cpp:71-90 | the column filter's shift `2*bits` is 16 and `2^16 == 2^8 * 2^8`; for coefficients a, b >= 0 the product of the quantized integers, shifted by 16, falls short of `a*b` by at least 0 and at most `(a + b) / 2^8`: `0 <= a*b*2^16 - Quantize(a)*Quantize(b) <= 2^8*(a + b)` |
| Common.Pow2 | dnn/src/x86/gaussian_blur/opr_impl.cpp:77 | `1 << n` is positive |
| Common.Pow2Add | dnn/src/x86/gaussian_blur/opr_impl.cpp:90 | shifting by `m + n` is shifting by m and then by n |
| GaussianBlur.ApplyEach | dnn/src/x86/gaussian_blur/opr_impl.cpp:51-56 | the batch images `filter.apply` runs on are `Upto(shape[0])`: by `UptoAt`, each index 0 .. shape[0] - 1 once, in increasing order |
| GaussianBlur.GaussianBlurExecFloat | dnn/src/x86/gaussian_blur/opr_impl.cpp:28-57 | BORDER_ISOLATED is rejected; otherwise the row filter is built from `kernel_column` and the column filter from `kernel_row` with shift 0, and every image is filtered once, in order |
| GaussianBlur.GaussianBlurExec8u | dnn/src/x86/gaussian_blur/opr_impl.cpp:59-102 | a non-Uint8 source is rejected first, then BORDER_ISOLATED; otherwise the filters use the quantized `kernel_column` (row) and `kernel_row` (column, shift `2*bits`), and every image is filtered once, in order |
| GaussianBlur.Exec | dnn/src/x86/gaussian_blur/opr_impl.cpp:104-113 | Float32 takes the float path, Uint8 the 8-bit path, any other dtype is rejected; each error case (unsupported dtype, non-Uint8 source, BORDER_ISOLATED) yields its own error and every other input succeeds; on success the row filter has `kernel_width` taps and the column filter `kernel_height` |

## Left out

- The delegated generic convolution `ConvolutionForwardImpl::exec`, the workspace, and `malloc`/`free` of the kernel buffer: external kernel and memory plumbing. The model allocates the kernel with `new`.
- Float arithmetic: the product `kerx[w] * kery[h]` is the parameter `mul` over an abstract element type; the Gaussian coefficients are reals.
- SynthesizeKernel: `k_pos`, `cn` and `ic * oc` are unbounded integers; the source's 32-bit `int` counters would overflow past 2^31 kernel entries. The shape of `filter_x` is a four-entry sequence and the filters' lengths matching it is a precondition (the layout check `check_exec` is not part of this model).
- `remap`, `RemapVec`, border extrapolation, the interpolation table and the border value: they live in headers that are not part of this model. So are the SSE includes.
- The double-precision homogeneous-coordinate evaluation, its INT_MIN/INT_MAX clamping and the `saturate_cast<int>` rounding: floating-point numerics. The model starts from the integer (X, Y) of each destination pixel, given as the function `coord`.
- WarpPerspective: INTER_BITS and INTER_TAB_SIZE come from a header that is not part of this model. INTER_BITS is the parameter `interBits`, and INTER_TAB_SIZE is `2^interBits`. `>>` and `&` on signed ints are Euclidean `/` and `%` by INTER_TAB_SIZE, which agree for a power-of-two divisor. The round trip in `LinearCodesRecover` is stated for INTER_BITS <= 7, where the bin range fits a short.
- BlockSize: requires height, width >= 1. For an empty destination the source divides by zero when it derives `BLOCK_SZ_W` and `BLOCK_SZ_H` (:45-46, :117-118).
- FillRow, FillCells, WarpPerspectiveCv: the source hoists the NEAREST test out of the x1 loop (a template parameter); the model's x1 loop, `FillCells`, tests it per cell, which writes the same cells. The table entries outside the tile are uninitialised stack memory in the source; `WarpPerspectiveCv` allocates fresh arrays whose entries outside the tile are unspecified, and states nothing about them.
- `DISPATCH_IMODE` and the two thread-pool dispatch macros are not modelled: which (imode, bmode, ch) instantiations exist, and the threads themselves. A dispatch is the task count it issues, and each task is `WarpPerspectiveCv` on its own index.
- `FilterEngine`, `getLinearRowFilter` and `getLinearColumnFilter`: defined in headers that are not part of this model. A run records the coefficients and the shift each filter is built from, and the images `apply` is called on.
- `createGaussianKernels` (also not part of this model): the two 1D kernels are inputs. Their lengths, `kernel_width` for `kernel_column` and `kernel_height` for `kernel_row`, follow the matrix sizes at :32-33 and :64-65, with `Size(rows, cols)` read as (height, width).
- Trunc: `static_cast<int>` of a float outside the int range is undefined in C++; the model truncates any real.
- `TensorND2Mat`, `check_exec` and the sigma parameters: tensor-view plumbing, layout validation and inputs of the coefficient generator.
