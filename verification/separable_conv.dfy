/**
 * Naive separable convolution: before delegating to the generic convolution,
 * the operator expands the two per-channel-pair 1D filters `filter_x` and
 * `filter_y` (each of shape [oc, ic, 1, kw], stored flat) into a dense
 * [oc, ic, kh, kw] kernel with kh == kw, entry [o, i, h, w] being
 * `filter_x[o, i, w] * filter_y[o, i, h]`.
 *
 * Filter values have the element type `F` and are multiplied by `mul`: the
 * float32 product, whose rounding the model leaves abstract.
 */
module SeparableConv {
  import opened Common

  /** Flat offset of entry [cn, h, w] of the dense kernel, cn the (oc, ic) pair, kh == kw. */
  function KernelIndex(cn: nat, h: nat, w: nat, kw: nat): (k: nat)
  {
    (cn * kw + h) * kw + w
  }

  /**
   * Entry `k` of the dense kernel: `k` is split into the kernel row `cn * kw + h`
   * (quotient by kw) and the column `w`; the row splits again into pair and h.
   */
  function KernelEntry<F>(fx: seq<F>, fy: seq<F>, mul: (F, F) -> F, pairs: nat, kw: nat, k: nat): (e: F)
    requires |fx| == pairs * kw && |fy| == pairs * kw
    requires k < pairs * kw * kw
  {
    var row, w := k / kw, k % kw;
    var cn, h := row / kw, row % kw;
    DivBound(k, pairs * kw, kw);
    DivBound(row, pairs, kw);
    CellBound(cn, w, pairs, kw);
    assert row == cn * kw + h;
    mul(fx[cn * kw + w], fy[row])
  }

  /**
   * `ker` is the dense kernel synthesized from `pairs` channel pairs of 1D
   * filters of length kw: it has pairs * kw * kw entries and entry `k` is
   * `KernelEntry(.., k)`.
   */
  ghost predicate IsKernel2D<F>(ker: seq<F>, fx: seq<F>, fy: seq<F>, mul: (F, F) -> F, pairs: nat, kw: nat)
    requires |fx| == pairs * kw && |fy| == pairs * kw
  {
    && |ker| == pairs * kw * kw
    && forall k {:trigger KernelEntry(fx, fy, mul, pairs, kw, k)} :: 0 <= k < |ker| ==> ker[k] == KernelEntry(fx, fy, mul, pairs, kw, k)
  }

  /** The dense kernel, built entry by entry. */
  function Kernel2D<F>(fx: seq<F>, fy: seq<F>, mul: (F, F) -> F, pairs: nat, kw: nat): (ker: seq<F>)
    requires |fx| == pairs * kw && |fy| == pairs * kw
    ensures IsKernel2D(ker, fx, fy, mul, pairs, kw)
  {
    seq(pairs * kw * kw, k requires 0 <= k < pairs * kw * kw => KernelEntry(fx, fy, mul, pairs, kw, k))
  }

  /** Every (pair, row, column) triple addresses an entry of the dense kernel. */
  lemma KernelIndexInRange(pairs: nat, kw: nat, cn: nat, h: nat, w: nat)
    requires cn < pairs && h < kw && w < kw
    ensures KernelIndex(cn, h, w, kw) < pairs * kw * kw
  {
    CellBound(cn, h, pairs, kw);
    CellBound(cn * kw + h, w, pairs * kw, kw);
  }

  /** Distinct (pair, row, column) triples address distinct entries. */
  lemma KernelIndexInjective(kw: nat, cn: nat, h: nat, w: nat, cn': nat, h': nat, w': nat)
    requires h < kw && w < kw && h' < kw && w' < kw
    requires KernelIndex(cn, h, w, kw) == KernelIndex(cn', h', w', kw)
    ensures cn == cn' && h == h' && w == w'
  {
    var k := KernelIndex(cn, h, w, kw);
    DivModUnique(cn * kw + h, w, kw);
    DivModUnique(cn' * kw + h', w', kw);
    assert cn * kw + h == k / kw == cn' * kw + h';
    DivModUnique(cn, h, kw);
    DivModUnique(cn', h', kw);
  }

  /** The index `(cn * kh + h) * kw + w` of entry [cn, h, w] equals the row-major flat index `cn * kh * kw + h * kw + w`. */
  lemma KernelIndexFlat(cn: nat, h: nat, w: nat, kw: nat)
    ensures KernelIndex(cn, h, w, kw) == cn * (kw * kw) + h * kw + w
  {
    assert (cn * kw + h) * kw == (cn * kw) * kw + h * kw;
    assert (cn * kw) * kw == cn * (kw * kw);
  }

  /**
   * The outer-product law: entry [cn, h, w] of the dense kernel is
   * `filter_x[cn][w] * filter_y[cn][h]`.
   */
  lemma Kernel2DAt<F>(ker: seq<F>, fx: seq<F>, fy: seq<F>, mul: (F, F) -> F, pairs: nat, kw: nat, cn: nat, h: nat, w: nat)
    requires |fx| == pairs * kw && |fy| == pairs * kw
    requires IsKernel2D(ker, fx, fy, mul, pairs, kw)
    requires cn < pairs && h < kw && w < kw
    ensures && KernelIndex(cn, h, w, kw) < |ker|
            && cn * kw + w < |fx| && cn * kw + h < |fy|
            && ker[KernelIndex(cn, h, w, kw)] == mul(fx[cn * kw + w], fy[cn * kw + h])
  {
    KernelIndexInRange(pairs, kw, cn, h, w);
    CellBound(cn, w, pairs, kw);
    CellBound(cn, h, pairs, kw);
    var row := cn * kw + h;
    var k := row * kw + w;
    DivModUnique(row, w, kw);
    DivModUnique(cn, h, kw);
    assert k / kw == row && k % kw == w;
    assert row / kw == cn && row % kw == h;
    assert ker[k] == KernelEntry(fx, fy, mul, pairs, kw, k);
  }

  // ---------------------------------------------------------------------
  // The same kernel read row by row from a running position, the way the
  // generation loop lays it down.

  /**
   * Positions `pos` up to `end` of `s` hold rows `h`, `h + 1`, ..., `kw - 1` of
   * the channel pair whose filters start at offset `off` of `fx` and `fy`: row
   * `h` is the pair's `filter_x` scaled by its `filter_y[h]`.
   */
  ghost predicate RowsFrom<F>(s: seq<F>, pos: nat, end: nat, fx: seq<F>, fy: seq<F>, mul: (F, F) -> F, kw: nat, off: nat, h: nat)
    decreases kw - h
  {
    if h >= kw then pos == end <= |s|
    else
      && off + kw <= |fx| && off + h < |fy| && pos + kw <= |s|
      && (forall k :: pos <= k < pos + kw ==> s[k] == mul(fx[off + (k - pos)], fy[off + h]))
      && RowsFrom(s, pos + kw, end, fx, fy, mul, kw, off, h + 1)
  }

  /**
   * From position `pos` on, `s` holds the kw-by-kw blocks of `n` consecutive
   * channel pairs, the first with filters at offset `off`, and ends right after them.
   */
  ghost predicate PairsAt<F>(s: seq<F>, pos: nat, fx: seq<F>, fy: seq<F>, mul: (F, F) -> F, kw: nat, off: nat, n: nat)
    decreases n
  {
    if n == 0 then pos == |s|
    else RowsFrom(s, pos, pos + kw * kw, fx, fy, mul, kw, off, 0) && PairsAt(s, pos + kw * kw, fx, fy, mul, kw, off + kw, n - 1)
  }

  /** Row `h` of pair `c` of `ker` is the pair's `filter_x` scaled by its `filter_y[h]`. */
  ghost predicate RowAt<F>(ker: seq<F>, fx: seq<F>, fy: seq<F>, mul: (F, F) -> F, kw: nat, c: nat, h: nat)
  {
    var base := c * (kw * kw) + h * kw;
    && c * kw + kw <= |fx| && c * kw + h < |fy| && base + kw <= |ker|
    && forall k :: base <= k < base + kw ==> ker[k] == mul(fx[c * kw + (k - base)], fy[c * kw + h])
  }

  /** Every row of every pair of `ker` is its filter_x scaled by the matching filter_y entry. */
  ghost predicate RowLaw<F>(ker: seq<F>, fx: seq<F>, fy: seq<F>, mul: (F, F) -> F, pairs: nat, kw: nat)
  {
    forall c, h :: 0 <= c < pairs && 0 <= h < kw ==> RowAt(ker, fx, fy, mul, kw, c, h)
  }

  /** A row of the dense kernel is the pair's `filter_x` scaled by one `filter_y` entry. */
  lemma Kernel2DRow<F>(ker: seq<F>, fx: seq<F>, fy: seq<F>, mul: (F, F) -> F, pairs: nat, kw: nat, c: nat, h: nat)
    requires |fx| == pairs * kw && |fy| == pairs * kw
    requires IsKernel2D(ker, fx, fy, mul, pairs, kw)
    requires c < pairs && h < kw
    ensures RowAt(ker, fx, fy, mul, kw, c, h)
  {
    var base := c * (kw * kw) + h * kw;
    Kernel2DCell(ker, fx, fy, mul, pairs, kw, c, h, kw - 1, base);
    forall k | base <= k < base + kw
      ensures ker[k] == mul(fx[c * kw + (k - base)], fy[c * kw + h])
    {
      Kernel2DCell(ker, fx, fy, mul, pairs, kw, c, h, k - base, base);
    }
  }

  /** `Kernel2DAt` with the cell addressed from the start `base` of its row. */
  lemma Kernel2DCell<F>(ker: seq<F>, fx: seq<F>, fy: seq<F>, mul: (F, F) -> F, pairs: nat, kw: nat,
                        c: nat, h: nat, w: nat, base: nat)
    requires |fx| == pairs * kw && |fy| == pairs * kw
    requires IsKernel2D(ker, fx, fy, mul, pairs, kw)
    requires c < pairs && h < kw && w < kw && base == c * (kw * kw) + h * kw
    ensures && base + w < |ker| && c * kw + w < |fx| && c * kw + h < |fy|
            && ker[base + w] == mul(fx[c * kw + w], fy[c * kw + h])
  {
    Kernel2DAt(ker, fx, fy, mul, pairs, kw, c, h, w);
    KernelIndexFlat(c, h, w, kw);
  }

  /** Rank one per pair: the dense kernel obeys the row law. */
  lemma Kernel2DRowLaw<F>(ker: seq<F>, fx: seq<F>, fy: seq<F>, mul: (F, F) -> F, pairs: nat, kw: nat)
    requires |fx| == pairs * kw && |fy| == pairs * kw
    requires IsKernel2D(ker, fx, fy, mul, pairs, kw)
    ensures RowLaw(ker, fx, fy, mul, pairs, kw)
  {
    forall c, h | 0 <= c < pairs && 0 <= h < kw
      ensures RowAt(ker, fx, fy, mul, kw, c, h)
    {
      Kernel2DRow(ker, fx, fy, mul, pairs, kw, c, h);
    }
  }

  /** Rows `h` onwards of pair `c` of a kernel obeying the row law, at `pos` up to `end`. */
  lemma {:induction false} Kernel2DRowsFrom<F>(ker: seq<F>, fx: seq<F>, fy: seq<F>, mul: (F, F) -> F, pairs: nat, kw: nat,
                                               c: nat, h: nat, pos: nat, end: nat)
    requires RowLaw(ker, fx, fy, mul, pairs, kw)
    requires c < pairs && h <= kw && end <= |ker|
    requires pos == c * (kw * kw) + h * kw && end == c * (kw * kw) + kw * kw
    ensures RowsFrom(ker, pos, end, fx, fy, mul, kw, c * kw, h)
    decreases kw - h
  {
    if h < kw {
      assert RowAt(ker, fx, fy, mul, kw, c, h);
      MulSucc(h, kw);
      Kernel2DRowsFrom(ker, fx, fy, mul, pairs, kw, c, h + 1, pos + kw, end);
    }
  }

  /** A kernel obeying the row law is, from the block of pair `c` on, the blocks of pairs `c`, ..., `pairs - 1`. */
  lemma {:induction false} Kernel2DPairsAt<F>(ker: seq<F>, fx: seq<F>, fy: seq<F>, mul: (F, F) -> F, pairs: nat, kw: nat,
                                              c: nat, pos: nat, off: nat)
    requires |ker| == pairs * (kw * kw) && RowLaw(ker, fx, fy, mul, pairs, kw)
    requires c <= pairs && pos == c * (kw * kw) && off == c * kw
    ensures PairsAt(ker, pos, fx, fy, mul, kw, off, pairs - c)
    decreases pairs - c
  {
    if c < pairs {
      MulSucc(c, kw * kw);
      MulSucc(c, kw);
      MulMono(c + 1, pairs, kw * kw);
      Kernel2DRowsFrom(ker, fx, fy, mul, pairs, kw, c, 0, pos, pos + kw * kw);
      Kernel2DPairsAt(ker, fx, fy, mul, pairs, kw, c + 1, pos + kw * kw, off + kw);
    }
  }

  /** Two sequences laid out as the same rows agree on those rows. */
  lemma {:induction false} RowsFromAgree<F>(a: seq<F>, b: seq<F>, pos: nat, end: nat, fx: seq<F>, fy: seq<F>, mul: (F, F) -> F, kw: nat, off: nat, h: nat)
    requires RowsFrom(a, pos, end, fx, fy, mul, kw, off, h) && RowsFrom(b, pos, end, fx, fy, mul, kw, off, h)
    ensures end <= |a| && end <= |b| && forall k :: pos <= k < end ==> a[k] == b[k]
    decreases kw - h
  {
    if h < kw {
      RowsFromAgree(a, b, pos + kw, end, fx, fy, mul, kw, off, h + 1);
    }
  }

  /** `PairsAt` determines everything from `pos` on: two sequences it holds for agree there. */
  lemma {:induction false} PairsAtAgree<F>(a: seq<F>, b: seq<F>, pos: nat, fx: seq<F>, fy: seq<F>, mul: (F, F) -> F, kw: nat, off: nat, n: nat)
    requires PairsAt(a, pos, fx, fy, mul, kw, off, n) && PairsAt(b, pos, fx, fy, mul, kw, off, n)
    ensures |a| == |b| && pos <= |a| && forall k :: pos <= k < |a| ==> a[k] == b[k]
    decreases n
  {
    if n > 0 {
      RowsFromAgree(a, b, pos, pos + kw * kw, fx, fy, mul, kw, off, 0);
      PairsAtAgree(a, b, pos + kw * kw, fx, fy, mul, kw, off + kw, n - 1);
    }
  }

  /** Some sequence of the kernel's length is laid out pair by pair as `PairsAt` describes. */
  lemma LayoutExists<F>(fx: seq<F>, fy: seq<F>, mul: (F, F) -> F, pairs: nat, kw: nat)
    requires |fx| == pairs * kw && |fy| == pairs * kw
    ensures exists s :: |s| == pairs * kw * kw && PairsAt(s, 0, fx, fy, mul, kw, 0, pairs)
  {
    var ker := Kernel2D(fx, fy, mul, pairs, kw);
    Kernel2DRowLaw(ker, fx, fy, mul, pairs, kw);
    Kernel2DPairsAt(ker, fx, fy, mul, pairs, kw, 0, 0, 0);
  }

  /** A sequence laid out pair by pair from position 0 is the dense kernel. */
  lemma LayoutIsKernel2D<F>(s: seq<F>, fx: seq<F>, fy: seq<F>, mul: (F, F) -> F, pairs: nat, kw: nat)
    requires |fx| == pairs * kw && |fy| == pairs * kw
    requires PairsAt(s, 0, fx, fy, mul, kw, 0, pairs)
    ensures IsKernel2D(s, fx, fy, mul, pairs, kw)
  {
    var ker := Kernel2D(fx, fy, mul, pairs, kw);
    Kernel2DRowLaw(ker, fx, fy, mul, pairs, kw);
    Kernel2DPairsAt(ker, fx, fy, mul, pairs, kw, 0, 0, 0);
    PairsAtAgree(s, ker, 0, fx, fy, mul, kw, 0, pairs);
    assert s == ker;
  }

  /**
   * The innermost loop of the kernel generation: row `h` of the current pair,
   * `ker2d[k_pos++] = kerx[w] * kery[h]` for w in [0, kw), written at the
   * running counter `kPos`; `yAt` is the position of `kery[h]` in `filter_y`.
   * `order` extends the record of counter values written.
   */
  method WriteRow<F>(ker2d: array<F>, kPos: nat, filterX: array<F>, kerx: nat, filterY: array<F>, yAt: nat,
                     mul: (F, F) -> F, kw: nat, ghost order: seq<nat>)
    returns (next: nat, ghost order': seq<nat>)
    requires ker2d != filterX && ker2d != filterY
    requires kPos + kw <= ker2d.Length && kerx + kw <= filterX.Length && yAt < filterY.Length
    requires order == Upto(kPos)
    modifies ker2d
    ensures next == kPos + kw && order' == Upto(next)
    ensures forall k :: kPos <= k < next ==> ker2d[k] == mul(filterX[kerx + (k - kPos)], filterY[yAt])
    ensures forall k :: 0 <= k < kPos ==> ker2d[k] == old(ker2d[k])
    ensures forall k :: next <= k < ker2d.Length ==> ker2d[k] == old(ker2d[k])
  {
    next, order' := kPos, order;
    var w := 0;
    while w < kw
      invariant 0 <= w <= kw && next == kPos + w && order' == Upto(next)
      invariant forall k :: kPos <= k < next ==> ker2d[k] == mul(filterX[kerx + (k - kPos)], filterY[yAt])
      invariant forall k :: 0 <= k < kPos ==> ker2d[k] == old(ker2d[k])
      invariant forall k :: next <= k < ker2d.Length ==> ker2d[k] == old(ker2d[k])
    {
      ker2d[next] := mul(filterX[kerx + w], filterY[yAt]);
      UptoSnoc(next);
      order' := order' + [next];
      next := next + 1;
      w := w + 1;
    }
  }

  /**
   * The middle loop of the kernel generation: rows 0 to kh - 1 of the pair whose
   * filters start at `kerx` == `kery`, written from `kPos` on, continuing the
   * prefix of `spec` already in `ker2d`.
   */
  method WritePair<F>(ker2d: array<F>, kPos: nat, filterX: array<F>, kerx: nat, filterY: array<F>, kery: nat,
                      mul: (F, F) -> F, kw: nat, ghost order: seq<nat>, ghost spec: seq<F>)
    returns (next: nat, ghost order': seq<nat>)
    requires ker2d != filterX && ker2d != filterY && kerx == kery && |spec| == ker2d.Length
    requires RowsFrom(spec, kPos, kPos + kw * kw, filterX[..], filterY[..], mul, kw, kerx, 0)
    requires order == Upto(kPos)
    requires forall k :: 0 <= k < kPos ==> ker2d[k] == spec[k]
    modifies ker2d
    ensures next == kPos + kw * kw <= ker2d.Length && order' == Upto(next)
    ensures forall k :: 0 <= k < next ==> ker2d[k] == spec[k]
    ensures forall k :: next <= k < ker2d.Length ==> ker2d[k] == old(ker2d[k])
  {
    var kh := kw;
    ghost var fx, fy := filterX[..], filterY[..];
    next, order' := kPos, order;
    var h := 0;
    while h < kh
      invariant 0 <= h <= kh && next <= |spec|
      invariant RowsFrom(spec, next, kPos + kw * kw, fx, fy, mul, kw, kerx, h)
      invariant order' == Upto(next)
      invariant forall k :: 0 <= k < next ==> ker2d[k] == spec[k]
      invariant forall k :: next <= k < ker2d.Length ==> ker2d[k] == old(ker2d[k])
    {
      next, order' := WriteRow(ker2d, next, filterX, kerx, filterY, kery + h, mul, kw, order');
      h := h + 1;
    }
  }

  /**
   * `SeparableConvForwardImpl::exec`, kernel generation: a triple loop over the
   * channel pairs, rows and columns writing through the running counter `kPos`,
   * while the read offsets `kerx` and `kery` advance by kw per pair; the row
   * and column loops are `WritePair` and `WriteRow`. `order` records the
   * sequence of `kPos` values written. The filters are only read; `kw`, `ic`
   * and `oc` are dimensions 3, 1 and 0 of `filter_x`'s shape [oc, ic, 1, kw],
   * and `filter_y` has the same shape.
   */
  method SynthesizeKernel<F(0)>(filterX: array<F>, filterXShape: seq<nat>, filterY: array<F>, mul: (F, F) -> F)
    returns (ker2d: array<F>, ghost order: seq<nat>)
    requires |filterXShape| == 4
    requires filterX.Length == filterXShape[0] * filterXShape[1] * filterXShape[3]
    requires filterY.Length == filterX.Length
    ensures fresh(ker2d)
    ensures ker2d.Length == filterXShape[0] * filterXShape[1] * filterXShape[3] * filterXShape[3]
    ensures IsKernel2D(ker2d[..], filterX[..], filterY[..], mul, filterXShape[0] * filterXShape[1], filterXShape[3])
    ensures order == Upto(filterXShape[0] * filterXShape[1] * filterXShape[3] * filterXShape[3])
  {
    var kw := filterXShape[3];
    var kh := kw;
    var ic := filterXShape[1];
    var oc := filterXShape[0];
    var pairs := oc * ic;
    assert ic * oc == pairs;
    ker2d := new F[oc * ic * kh * kw];
    ghost var fx, fy := filterX[..], filterY[..];
    LayoutExists(fx, fy, mul, pairs, kw);
    ghost var spec :| |spec| == pairs * kw * kw && PairsAt(spec, 0, fx, fy, mul, kw, 0, pairs);
    var kPos: nat := 0;
    var kerx: nat, kery: nat := 0, 0;
    order := [];
    var cn := 0;
    while cn < ic * oc
      invariant 0 <= cn <= pairs && kerx == kery
      invariant PairsAt(spec, kPos, fx, fy, mul, kw, kerx, pairs - cn)
      invariant kPos <= |spec| == ker2d.Length
      invariant order == Upto(kPos)
      invariant forall k :: 0 <= k < kPos ==> ker2d[k] == spec[k]
    {
      kPos, order := WritePair(ker2d, kPos, filterX, kerx, filterY, kery, mul, kw, order, spec);
      kerx := kerx + kw;
      kery := kery + kw;
      cn := cn + 1;
    }
    assert ker2d[..] == spec;
    LayoutIsKernel2D(spec, fx, fy, mul, pairs, kw);
  }
}
