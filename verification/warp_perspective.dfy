/**
 * x86 perspective warp, the integer part: how a destination image is cut into
 * tiles bounded by a 32 x 32 stack budget, how the flat task index of the
 * thread pool is mapped to a batch image and a tile, and how each tile fills
 * its fixed-point coordinate table `XY` and sub-pixel table `A`.
 *
 * The double-precision projective evaluation of a destination pixel is left
 * abstract: `coord(row, col)` is the integer pair (X, Y) the tile loop computes
 * for destination pixel (row, col), already scaled by INTER_TAB_SIZE outside
 * NEAREST mode. `interBits` is INTER_BITS and INTER_TAB_SIZE is `Pow2(interBits)`.
 */
module WarpPerspective {
  import opened Common

  /** Side of the square stack budget for one tile: at most BLOCK_SZ * BLOCK_SZ pixels. */
  const BlockSz: nat := 32

  /** Interpolation modes; every mode other than NEAREST goes through the sub-pixel table. */
  datatype InterpolationMode = Nearest | Linear | Area | Cubic | Lanczos4

  /** The tile shape `BLOCK_SZ_H` x `BLOCK_SZ_W` chosen for a destination. */
  datatype Block = Block(h: nat, w: nat)

  /** A tile of the destination: origin (y, x) and clamped extent bh x bw. */
  datatype Tile = Tile(y: nat, x: nat, bh: nat, bw: nat)

  /** A flat thread-pool index decoded into an image of the batch and a tile of that image. */
  datatype TaskRef = TaskRef(batchId: nat, taskId: nat)

  /** An integer source coordinate pair. */
  datatype Point = Point(x: int, y: int)

  datatype WarpError = UnsupportedChannel(ch: nat) | UnsupportedDType(dtype: DType)

  /** What `warp_perspective_cv_exec` hands to the thread pool. */
  datatype Dispatch = Dispatch(elem: DType, parallelismBatch: nat, tasks: nat)

  // ---------------------------------------------------------------------
  // Tiling.

  /**
   * Tile sizing: height is capped at BLOCK_SZ / 2 first, the width is the
   * widest that keeps the budget, then the height is re-derived from that
   * width. The exec entry and every task compute it with this one function.
   * The result is a non-empty tile inside the image, within the budget, and
   * at least as tall as the first guess.
   */
  function BlockSize(height: nat, width: nat): (b: Block)
    requires height >= 1 && width >= 1
    ensures 1 <= b.h <= height && 1 <= b.w <= width
    ensures b.h * b.w <= BlockSz * BlockSz
    ensures Min(BlockSz / 2, height) <= b.h
  {
    var h0 := Min(BlockSz / 2, height);
    var w := Min(BlockSz * BlockSz / h0, width);
    DivLowerBound(1, BlockSz * BlockSz, h0);
    var h := Min(BlockSz * BlockSz / w, height);
    DivLowerBound(1, BlockSz * BlockSz, w);
    MulDivLe(BlockSz * BlockSz, w);
    MulMono(h, BlockSz * BlockSz / w, w);
    MulDivLe(BlockSz * BlockSz, h0);
    MulMono(w, BlockSz * BlockSz / h0, h0);
    assert h0 * w <= BlockSz * BlockSz;
    DivLowerBound(h0, BlockSz * BlockSz, w);
    Block(h, w)
  }

  /** A tile shape that can cut an image: both sides at least one pixel. */
  predicate NonEmpty(b: Block)
  {
    b.h >= 1 && b.w >= 1
  }

  /**
   * Number of tiles of shape `b` over a height x width image; with the shape
   * from `BlockSize` this is `parallelism_batch`. A non-empty image has a tile.
   */
  function TileCount(height: nat, width: nat, b: Block): (n: nat)
    requires NonEmpty(b)
    ensures height >= 1 && width >= 1 ==> n >= 1
  {
    TileCountPositive(height, width, b);
    DivCeil(height, b.h) * DivCeil(width, b.w)
  }

  lemma TileCountPositive(height: nat, width: nat, b: Block)
    requires NonEmpty(b)
    ensures height >= 1 && width >= 1 ==> DivCeil(height, b.h) * DivCeil(width, b.w) >= 1
  {
    if height >= 1 && width >= 1 {
      DivCeilPositive(height, b.h);
      DivCeilPositive(width, b.w);
      MulMono(1, DivCeil(height, b.h), DivCeil(width, b.w));
    }
  }

  lemma DivCeilPositive(a: nat, s: nat)
    requires a >= 1 && s >= 1
    ensures DivCeil(a, s) >= 1
  {
  }

  /**
   * The tile of task `taskId`: row-major in the grid of tiles of shape `b`,
   * clamped at the bottom and right edges. Every tile starts inside the
   * destination, is not empty, stays inside it and is no larger than `b`.
   */
  function TaskTile(height: nat, width: nat, b: Block, taskId: nat): (t: Tile)
    requires NonEmpty(b) && taskId < TileCount(height, width, b)
    ensures t.y < height && t.x < width
    ensures 1 <= t.bh <= b.h && 1 <= t.bw <= b.w
    ensures t.y + t.bh <= height && t.x + t.bw <= width
    ensures t.bh * t.bw <= b.h * b.w
  {
    var wbs := DivCeil(width, b.w);
    var ty, tx := taskId / wbs, taskId % wbs;
    DivBound(taskId, DivCeil(height, b.h), wbs);
    TileOrigin(ty, height, b.h);
    TileOrigin(tx, width, b.w);
    var y, x := ty * b.h, tx * b.w;
    var bh, bw := Min(b.h, height - y), Min(b.w, width - x);
    MulMono2(bh, b.h, bw, b.w);
    Tile(y, x, bh, bw)
  }

  /** Tile `i` of side `s`, for `i` below `div_ceil(n, s)`, starts inside `[0, n)`. */
  lemma TileOrigin(i: nat, n: nat, s: nat)
    requires s > 0 && i < DivCeil(n, s)
    ensures i * s < n
  {
    MulMono(i, DivCeil(n, s) - 1, s);
  }

  lemma MulMono2(a: nat, b: nat, c: nat, d: nat)
    requires a <= b && c <= d
    ensures a * c <= b * d
  {
    MulMono(a, b, c);
    assert b * c <= b * d by { MulMono(c, d, b); }
  }

  /** A coordinate below `n` falls in one of the `div_ceil(n, s)` tiles of side `s`. */
  lemma TileIndexBound(r: nat, n: nat, s: nat)
    requires r < n && s > 0
    ensures r / s < DivCeil(n, s)
  {
    MulDivLe(r, s);
    if DivCeil(n, s) <= r / s {
      MulMono(DivCeil(n, s), r / s, s);
    }
  }

  /** Coordinate `r` lies in tile `r / s` of side `s`: `(r / s) * s <= r < (r / s) * s + s`. */
  lemma TileSpan(r: nat, s: nat)
    requires s > 0
    ensures (r / s) * s <= r < (r / s) * s + s
  {
    assert (r / s) * s + r % s == r;
  }

  /** The task at grid cell (ty, tx) is task `ty * wbs + tx`; its origin is (ty * b.h, tx * b.w). */
  lemma TaskTileAt(height: nat, width: nat, b: Block, ty: nat, tx: nat)
    requires NonEmpty(b) && ty < DivCeil(height, b.h) && tx < DivCeil(width, b.w)
    ensures ty * DivCeil(width, b.w) + tx < TileCount(height, width, b)
    ensures TaskTile(height, width, b, ty * DivCeil(width, b.w) + tx).y == ty * b.h
    ensures TaskTile(height, width, b, ty * DivCeil(width, b.w) + tx).x == tx * b.w
  {
    var hbs, wbs := DivCeil(height, b.h), DivCeil(width, b.w);
    CellBound(ty, tx, hbs, wbs);
    DivModUnique(ty, tx, wbs);
  }

  /** Destination pixel (r, c) lies in tile `t`. */
  predicate InTile(t: Tile, r: nat, c: nat)
  {
    t.y <= r < t.y + t.bh && t.x <= c < t.x + t.bw
  }

  /** The task whose tile holds destination pixel (r, c). */
  function TaskOf(height: nat, width: nat, b: Block, r: nat, c: nat): (id: nat)
    requires NonEmpty(b) && r < height && c < width
    ensures id < TileCount(height, width, b)
    ensures InTile(TaskTile(height, width, b, id), r, c)
  {
    var ty, tx := r / b.h, c / b.w;
    TileIndexBound(r, height, b.h);
    TileIndexBound(c, width, b.w);
    TaskTileAt(height, width, b, ty, tx);
    TileSpan(r, b.h);
    TileSpan(c, b.w);
    ty * DivCeil(width, b.w) + tx
  }

  /** A task whose tile holds (r, c) is `TaskOf(r, c)`: no pixel is in two tiles. */
  lemma TaskOfUnique(height: nat, width: nat, b: Block, id: nat, r: nat, c: nat)
    requires NonEmpty(b) && r < height && c < width
    requires id < TileCount(height, width, b) && InTile(TaskTile(height, width, b, id), r, c)
    ensures id == TaskOf(height, width, b, r, c)
  {
    var wbs := DivCeil(width, b.w);
    var t := TaskTile(height, width, b, id);
    TaskTileOrigin(height, width, b, id);
    TaskOfValue(height, width, b, r, c);
    GridCellUnique(id, wbs, b.h, b.w, r, c);
  }

  /** Task `id`'s tile starts at grid cell (id / wbs, id % wbs). */
  lemma TaskTileOrigin(height: nat, width: nat, b: Block, id: nat)
    requires NonEmpty(b) && id < TileCount(height, width, b)
    ensures TaskTile(height, width, b, id).y == (id / DivCeil(width, b.w)) * b.h
    ensures TaskTile(height, width, b, id).x == (id % DivCeil(width, b.w)) * b.w
  {
  }

  /** Pixel (r, c) belongs to grid cell (r / b.h, c / b.w). */
  lemma TaskOfValue(height: nat, width: nat, b: Block, r: nat, c: nat)
    requires NonEmpty(b) && r < height && c < width
    ensures TaskOf(height, width, b, r, c) == (r / b.h) * DivCeil(width, b.w) + c / b.w
  {
  }

  /**
   * On a row-major grid of `wbs` columns of cells `hh` by `ww`: if (r, c) lies
   * in the cell of flat index `id`, then `id` is the flat index of the cell
   * (r / hh, c / ww).
   */
  lemma GridCellUnique(id: nat, wbs: nat, hh: nat, ww: nat, r: nat, c: nat)
    requires wbs > 0 && hh > 0 && ww > 0
    requires (id / wbs) * hh <= r < (id / wbs) * hh + hh
    requires (id % wbs) * ww <= c < (id % wbs) * ww + ww
    ensures id == (r / hh) * wbs + c / ww
  {
    var ty, tx := id / wbs, id % wbs;
    DivModUnique(ty, r - ty * hh, hh);
    DivModUnique(tx, c - tx * ww, ww);
    assert r / hh == ty && c / ww == tx;
    assert id == ty * wbs + tx;
  }

  /**
   * The tiles of tasks 0 .. count - 1 partition the destination, whatever the
   * non-empty tile shape: pixel (r, c) is in the tile of task `id` exactly
   * when `id` is `TaskOf(r, c)`.
   */
  lemma TilesPartition(height: nat, width: nat, b: Block, r: nat, c: nat)
    requires NonEmpty(b) && r < height && c < width
    ensures forall id: nat :: id < TileCount(height, width, b) ==>
              (InTile(TaskTile(height, width, b, id), r, c) <==> id == TaskOf(height, width, b, r, c))
  {
    forall id: nat | id < TileCount(height, width, b) && InTile(TaskTile(height, width, b, id), r, c)
      ensures id == TaskOf(height, width, b, r, c)
    {
      TaskOfUnique(height, width, b, id, r, c);
    }
  }

  // ---------------------------------------------------------------------
  // The flat task index space of a batch.

  /** `batch_id = index / parallelism_batch`, `task_id = index % parallelism_batch`. */
  function SplitIndex(index: nat, per: nat): (r: TaskRef)
    requires per > 0
    ensures r.taskId < per
    ensures index == r.batchId * per + r.taskId
  {
    TaskRef(index / per, index % per)
  }

  /** The flat index of a (batch image, tile) pair. */
  function JoinIndex(r: TaskRef, per: nat): (index: nat)
    ensures r.taskId < per ==> r.batchId * per <= index < (r.batchId + 1) * per
  {
    MulSucc(r.batchId, per);
    r.batchId * per + r.taskId
  }

  /** Splitting the flat index of a pair gives the pair back. */
  lemma SplitJoin(r: TaskRef, per: nat)
    requires r.taskId < per
    ensures SplitIndex(JoinIndex(r, per), per) == r
  {
    DivModUnique(r.batchId, r.taskId, per);
  }

  /**
   * Every index the thread pool issues names an image of the batch, and the
   * image's 3x3 transform, read from `trans_ptr + batch_id * 9`, lies inside
   * the `batch * 9` transform values.
   */
  lemma SplitInBatch(index: nat, per: nat, batch: nat)
    requires per > 0 && index < batch * per
    ensures SplitIndex(index, per).batchId < batch
    ensures 9 * SplitIndex(index, per).batchId + 8 < 9 * batch
  {
    var r := SplitIndex(index, per);
    if batch <= r.batchId {
      MulMono(batch, r.batchId, per);
    }
  }

  /**
   * `warp_perspective_cv_exec`: the channel count is checked first, then the
   * element type; on success `batch * parallelism_batch` tasks are issued.
   */
  function WarpPerspectiveExec(dtype: DType, ch: nat, batch: nat, height: nat, width: nat): (r: Result<Dispatch, WarpError>)
    requires height >= 1 && width >= 1
    ensures r.Ok? <==> (1 <= ch <= 3 && (dtype == Float32 || dtype == Uint8))
    ensures !(1 <= ch <= 3) ==> r == Err(UnsupportedChannel(ch))
    ensures 1 <= ch <= 3 && !(dtype == Float32 || dtype == Uint8) ==> r == Err(UnsupportedDType(dtype))
    ensures r.Ok? ==> r.value.elem == dtype && r.value.parallelismBatch == TileCount(height, width, BlockSize(height, width))
    ensures r.Ok? ==> r.value.tasks == batch * r.value.parallelismBatch
  {
    var per := TileCount(height, width, BlockSize(height, width));
    if !(ch == 1 || ch == 3 || ch == 2) then Err(UnsupportedChannel(ch))
    else if dtype == Float32 then Ok(Dispatch(Float32, per, batch * per))
    else if dtype == Uint8 then Ok(Dispatch(Uint8, per, batch * per))
    else Err(UnsupportedDType(dtype))
  }

  /**
   * The tasks of a dispatch cover the whole batch exactly once: every pixel
   * (r, c) of image `bi` is written by the task at one flat index `owner`, and
   * an index whose image is `bi` and whose tile holds (r, c) is `owner`.
   */
  lemma DispatchPartition(batch: nat, height: nat, width: nat, bi: nat, r: nat, c: nat, index: nat)
    requires height >= 1 && width >= 1 && bi < batch && r < height && c < width
    requires index < batch * TileCount(height, width, BlockSize(height, width))
    ensures var b := BlockSize(height, width);
            var per := TileCount(height, width, b);
            var owner := JoinIndex(TaskRef(bi, TaskOf(height, width, b, r, c)), per);
            && owner < batch * per
            && (SplitIndex(index, per).batchId == bi && InTile(TaskTile(height, width, b, SplitIndex(index, per).taskId), r, c)
                <==> index == owner)
  {
    var b := BlockSize(height, width);
    var per := TileCount(height, width, b);
    var t := TaskOf(height, width, b, r, c);
    CellBound(bi, t, batch, per);
    SplitJoin(TaskRef(bi, t), per);
    var s := SplitIndex(index, per);
    if s.batchId == bi && InTile(TaskTile(height, width, b, s.taskId), r, c) {
      TaskOfUnique(height, width, b, s.taskId, r, c);
    }
  }

  // ---------------------------------------------------------------------
  // Fixed-point coordinate tables.

  /**
   * Entry of `XY` for one coordinate: in NEAREST mode the coordinate itself,
   * otherwise its integer part `v >> INTER_BITS`; either way saturated to short.
   */
  function XYCode(mode: InterpolationMode, interBits: nat, v: int): (c: int)
    ensures -0x8000 <= c < 0x8000
    ensures mode == Nearest && -0x8000 <= v < 0x8000 ==> c == v
    ensures mode != Nearest && -0x8000 <= v / Pow2(interBits) < 0x8000 ==>
              c * Pow2(interBits) <= v < (c + 1) * Pow2(interBits)
  {
    if mode == Nearest then SaturateShort(v)
    else
      var tab := Pow2(interBits);
      assert (v / tab) * tab + v % tab == v;
      MulSucc(v / tab, tab);
      SaturateShort(v / tab)
  }

  /**
   * Entry of `A`: the sub-pixel bin `(Y & (TAB - 1)) * TAB + (X & (TAB - 1))`,
   * TAB = INTER_TAB_SIZE, cast to short.
   */
  function AlphaCode(interBits: nat, p: Point): (a: int)
    ensures -0x8000 <= a < 0x8000
    ensures interBits <= 7 ==>
              && 0 <= a < Pow2(interBits) * Pow2(interBits)
              && a % Pow2(interBits) == p.x % Pow2(interBits)
              && a / Pow2(interBits) == p.y % Pow2(interBits)
  {
    var tab := Pow2(interBits);
    if interBits <= 7 then
      TabSquareFits(interBits);
      AlphaBin(tab, p.x % tab, p.y % tab);
      ShortCast((p.y % tab) * tab + p.x % tab)
    else
      ShortCast((p.y % tab) * tab + p.x % tab)
  }

  /**
   * The LINEAR split is exact: when INTER_TAB_SIZE^2 fits a short and the integer
   * parts do not saturate, the `XY` entries and `alpha` give X and Y back, and
   * `alpha` is a bin below INTER_TAB_SIZE^2.
   */
  lemma LinearCodesRecover(interBits: nat, p: Point)
    requires interBits <= 7
    requires -0x8000 <= p.x / Pow2(interBits) < 0x8000 && -0x8000 <= p.y / Pow2(interBits) < 0x8000
    ensures 0 <= AlphaCode(interBits, p) < Pow2(interBits) * Pow2(interBits)
    ensures XYCode(Linear, interBits, p.x) * Pow2(interBits) + AlphaCode(interBits, p) % Pow2(interBits) == p.x
    ensures XYCode(Linear, interBits, p.y) * Pow2(interBits) + AlphaCode(interBits, p) / Pow2(interBits) == p.y
  {
    TabSquareFits(interBits);
    SplitRecover(Pow2(interBits), p);
  }

  /** With at most 7 fraction bits, INTER_TAB_SIZE^2 is at most 2^14. */
  lemma TabSquareFits(interBits: nat)
    requires interBits <= 7
    ensures Pow2(interBits) * Pow2(interBits) <= 0x4000
  {
    Pow2Add(interBits, interBits);
    Pow2Mono(interBits + interBits, 14);
    assert Pow2(14) == 0x4000;
  }

  /** `LinearCodesRecover` for a table of `tab` bins per axis. */
  lemma SplitRecover(tab: nat, p: Point)
    requires 1 <= tab && tab * tab <= 0x4000
    requires -0x8000 <= p.x / tab < 0x8000 && -0x8000 <= p.y / tab < 0x8000
    ensures var alpha := ShortCast((p.y % tab) * tab + p.x % tab);
            && 0 <= alpha < tab * tab
            && SaturateShort(p.x / tab) * tab + alpha % tab == p.x
            && SaturateShort(p.y / tab) * tab + alpha / tab == p.y
  {
    AlphaBin(tab, p.x % tab, p.y % tab);
  }

  /** The bin `fy * tab + fx` of two fractions below `tab` fits a short and splits back into them. */
  lemma AlphaBin(tab: nat, fx: int, fy: int)
    requires 0 <= fx < tab && 0 <= fy < tab && tab * tab <= 0x4000
    ensures 0 <= fy * tab + fx < tab * tab
    ensures ShortCast(fy * tab + fx) == fy * tab + fx
    ensures (fy * tab + fx) % tab == fx && (fy * tab + fx) / tab == fy
  {
    CellBound(fy, fx, tab, tab);
    ShortCastFits(fy * tab + fx);
    DivModUnique(fy, fx, tab);
  }

  /** Offset of tile cell (y1, x1) in `A`; its pair in `XY` starts at twice this. */
  function Cell(bw: nat, y1: nat, x1: nat): (c: nat)
    ensures x1 < bw ==> c / bw == y1 && c % bw == x1
  {
    if x1 < bw then
      DivModUnique(y1, x1, bw);
      y1 * bw + x1
    else
      y1 * bw + x1
  }

  /** Cells of earlier tile rows come before the start of row `y1`. */
  lemma CellBefore(bw: nat, y0: nat, x1: nat, y1: nat)
    requires y0 < y1 && x1 < bw
    ensures Cell(bw, y0, x1) < Cell(bw, y1, 0)
  {
    MulMono(y0 + 1, y1, bw);
  }

  /**
   * Row `y1` of a tile: the row pointers `xy = XY + y1 * bw * 2` and
   * `alpha = A + y1 * bw`, then the `x1` loop (`FillCells`), which writes the
   * pair of `XY` codes at `XY + y1 * bw * 2 + x1 * 2` and, outside NEAREST
   * mode, the sub-pixel bin at `A + y1 * bw + x1`. The source hoists the mode
   * test out of the loop; the cells written are the same. Every other row is
   * left alone.
   */
  method FillRow(xy: array<int>, alpha: array<int>, t: Tile, y1: nat,
                 mode: InterpolationMode, interBits: nat, coord: (nat, nat) -> Point)
    requires xy != alpha && xy.Length == 2 * BlockSz * BlockSz && alpha.Length == BlockSz * BlockSz
    requires y1 < t.bh && t.bh * t.bw <= BlockSz * BlockSz
    modifies xy, alpha
    ensures forall x1 {:trigger Cell(t.bw, y1, x1)} :: 0 <= x1 < t.bw ==>
              && Cell(t.bw, y1, x1) < t.bh * t.bw
              && xy[2 * Cell(t.bw, y1, x1)] == XYCode(mode, interBits, coord(t.y + y1, t.x + x1).x)
              && xy[2 * Cell(t.bw, y1, x1) + 1] == XYCode(mode, interBits, coord(t.y + y1, t.x + x1).y)
              && (mode != Nearest ==> alpha[Cell(t.bw, y1, x1)] == AlphaCode(interBits, coord(t.y + y1, t.x + x1)))
    ensures forall k :: 0 <= k < 2 * Cell(t.bw, y1, 0) ==> xy[k] == old(xy[k])
    ensures forall k :: 0 <= k < Cell(t.bw, y1, 0) ==> alpha[k] == old(alpha[k])
    ensures forall k :: 2 * Cell(t.bw, y1 + 1, 0) <= k < xy.Length ==> xy[k] == old(xy[k])
    ensures forall k :: Cell(t.bw, y1 + 1, 0) <= k < alpha.Length ==> alpha[k] == old(alpha[k])
    ensures mode == Nearest ==> alpha[..] == old(alpha[..])
  {
    var bw := t.bw;
    var rowStart := y1 * bw;
    MulMono(y1 + 1, t.bh, bw);
    assert rowStart + bw == Cell(bw, y1 + 1, 0) <= t.bh * bw;
    FillCells(xy, alpha, rowStart, t, y1, mode, interBits, coord);
    forall x1 | 0 <= x1 < bw
      ensures Cell(bw, y1, x1) == RowSlot(rowStart, x1) < t.bh * bw
    {
    }
  }

  /** Entry `j` of the tile row whose `A` offset is `rowStart`. */
  function RowSlot(rowStart: nat, j: nat): nat
  {
    rowStart + j
  }

  /**
   * The `x1` loop, writing through the row pointers `xy = XY + rowStart * 2`
   * and `alpha = A + rowStart`: for each column the pair of `XY` codes of
   * pixel (y + y1, x + x1) and, outside NEAREST mode, its sub-pixel bin; the
   * entries outside the row are left alone.
   */
  method FillCells(xy: array<int>, alpha: array<int>, rowStart: nat, t: Tile, y1: nat,
                   mode: InterpolationMode, interBits: nat, coord: (nat, nat) -> Point)
    requires xy != alpha && 2 * (rowStart + t.bw) <= xy.Length && rowStart + t.bw <= alpha.Length
    modifies xy, alpha
    ensures forall j {:trigger RowSlot(rowStart, j)} :: 0 <= j < t.bw ==>
              && xy[2 * RowSlot(rowStart, j)] == XYCode(mode, interBits, coord(t.y + y1, t.x + j).x)
              && xy[2 * RowSlot(rowStart, j) + 1] == XYCode(mode, interBits, coord(t.y + y1, t.x + j).y)
              && (mode != Nearest ==> alpha[RowSlot(rowStart, j)] == AlphaCode(interBits, coord(t.y + y1, t.x + j)))
    ensures forall k :: 0 <= k < xy.Length && !(2 * rowStart <= k < 2 * (rowStart + t.bw)) ==> xy[k] == old(xy[k])
    ensures forall k :: 0 <= k < alpha.Length && (mode == Nearest || !(rowStart <= k < rowStart + t.bw)) ==>
              alpha[k] == old(alpha[k])
  {
    var x1 := 0;
    while x1 < t.bw
      invariant 0 <= x1 <= t.bw
      invariant forall j {:trigger RowSlot(rowStart, j)} :: 0 <= j < x1 ==>
                  && xy[2 * RowSlot(rowStart, j)] == XYCode(mode, interBits, coord(t.y + y1, t.x + j).x)
                  && xy[2 * RowSlot(rowStart, j) + 1] == XYCode(mode, interBits, coord(t.y + y1, t.x + j).y)
                  && (mode != Nearest ==> alpha[RowSlot(rowStart, j)] == AlphaCode(interBits, coord(t.y + y1, t.x + j)))
      invariant forall k :: 0 <= k < xy.Length && !(2 * rowStart <= k < 2 * (rowStart + x1)) ==> xy[k] == old(xy[k])
      invariant forall k :: 0 <= k < alpha.Length && (mode == Nearest || !(rowStart <= k < rowStart + x1)) ==>
                  alpha[k] == old(alpha[k])
    {
      var p := coord(t.y + y1, t.x + x1);
      xy[2 * RowSlot(rowStart, x1)] := XYCode(mode, interBits, p.x);
      xy[2 * RowSlot(rowStart, x1) + 1] := XYCode(mode, interBits, p.y);
      if mode != Nearest {
        alpha[RowSlot(rowStart, x1)] := AlphaCode(interBits, p);
      }
      x1 := x1 + 1;
    }
  }

  /**
   * `warp_perspective_cv` up to the call of `remap`: the tile of task `taskId`
   * (recomputing the tile shape exactly as the exec entry does), then the
   * `y1` loop filling `XY` and `A` row by row. Cell (y1, x1) of the tile holds
   * the codes of destination pixel (y + y1, x + x1), inside the tables.
   */
  method WarpPerspectiveCv(height: nat, width: nat, taskId: nat, mode: InterpolationMode, interBits: nat,
                           coord: (nat, nat) -> Point)
    returns (t: Tile, xy: array<int>, alpha: array<int>)
    requires height >= 1 && width >= 1 && taskId < TileCount(height, width, BlockSize(height, width))
    ensures t == TaskTile(height, width, BlockSize(height, width), taskId)
    ensures fresh(xy) && fresh(alpha)
    ensures xy.Length == 2 * BlockSz * BlockSz && alpha.Length == BlockSz * BlockSz
    ensures forall y1, x1 {:trigger Cell(t.bw, y1, x1)} :: 0 <= y1 < t.bh && 0 <= x1 < t.bw ==>
              && Cell(t.bw, y1, x1) < t.bh * t.bw
              && xy[2 * Cell(t.bw, y1, x1)] == XYCode(mode, interBits, coord(t.y + y1, t.x + x1).x)
              && xy[2 * Cell(t.bw, y1, x1) + 1] == XYCode(mode, interBits, coord(t.y + y1, t.x + x1).y)
              && (mode != Nearest ==> alpha[Cell(t.bw, y1, x1)] == AlphaCode(interBits, coord(t.y + y1, t.x + x1)))
  {
    var b := BlockSize(height, width);
    t := TaskTile(height, width, b, taskId);
    xy := new int[BlockSz * BlockSz * 2];
    alpha := new int[BlockSz * BlockSz];
    var y1 := 0;
    while y1 < t.bh
      invariant 0 <= y1 <= t.bh
      invariant forall y0, x1 {:trigger Cell(t.bw, y0, x1)} :: 0 <= y0 < y1 && 0 <= x1 < t.bw ==>
                  && Cell(t.bw, y0, x1) < t.bh * t.bw
                  && xy[2 * Cell(t.bw, y0, x1)] == XYCode(mode, interBits, coord(t.y + y0, t.x + x1).x)
                  && xy[2 * Cell(t.bw, y0, x1) + 1] == XYCode(mode, interBits, coord(t.y + y0, t.x + x1).y)
                  && (mode != Nearest ==> alpha[Cell(t.bw, y0, x1)] == AlphaCode(interBits, coord(t.y + y0, t.x + x1)))
    {
      forall y0, x1 | 0 <= y0 < y1 && 0 <= x1 < t.bw
        ensures Cell(t.bw, y0, x1) < Cell(t.bw, y1, 0)
      {
        CellBefore(t.bw, y0, x1, y1);
      }
      FillRow(xy, alpha, t, y1, mode, interBits, coord);
      y1 := y1 + 1;
    }
  }
}
