/**
 * x86 Gaussian blur, the part around the filter engine: the dtype and border
 * dispatch, the fixed-point quantization of the 8-bit path, which 1D kernel
 * feeds which filter, and the batch loop that applies the engine image by
 * image.
 *
 * The Gaussian coefficients come from `createGaussianKernels`, which is not
 * part of this model: they are inputs, as reals. The filter engine itself is
 * recorded, not run: a `Run` says which filters it was built from and on which
 * batch images `filter.apply` was called.
 */
module GaussianBlur {
  import opened Common

  /** Fraction bits of the 8-bit path's integer coefficients. */
  const Bits: nat := 8

  datatype BorderMode = Replicate | Reflect | Reflect101 | Wrap | Constant | Transparent | Isolated

  /** The operator parameters the kernels read (the Gaussian spreads only feed the coefficient inputs). */
  datatype Param = Param(kernelHeight: nat, kernelWidth: nat, border: BorderMode)

  /** Filter coefficients: float, or fixed point with `Bits` fraction bits. */
  datatype Coeffs = Floats(f: seq<real>) | Ints(i: seq<int>)

  datatype Path = FloatPath | FixedPoint8

  /**
   * A configured filter engine and its use: the row filter's coefficients,
   * the column filter's coefficients and final right shift, the channel count
   * and border mode, and the batch images `filter.apply` ran on, in call order.
   */
  datatype Run = Run(path: Path, rowCoeffs: Coeffs, columnCoeffs: Coeffs, columnShift: nat,
                     channels: nat, border: BorderMode, applied: seq<nat>)

  datatype BlurError = UnsupportedDType(dtype: DType) | SrcNotUint8(dtype: DType) | IsolatedBorder

  function CoeffsLen(c: Coeffs): (n: nat)
  {
    match c
    case Floats(f) => |f|
    case Ints(i) => |i|
  }

  // ---------------------------------------------------------------------
  // Fixed-point coefficients.

  /** `static_cast<int>` of a float: the integer part, rounding toward zero. */
  function Trunc(x: real): (t: int)
    ensures x >= 0.0 ==> t as real <= x < t as real + 1.0
    ensures x < 0.0 ==> t as real - 1.0 < x <= t as real
  {
    if x >= 0.0 then x.Floor else -((-x).Floor)
  }

  /** One coefficient of the 8-bit path: `static_cast<int>(k * (1 << bits))`. */
  function Quantize(k: real): (q: int)
    ensures k >= 0.0 ==> q as real <= k * 256.0 < q as real + 1.0
    ensures k < 0.0 ==> q as real - 1.0 < k * 256.0 <= q as real
  {
    assert Pow2(Bits) == 256;
    Trunc(k * Pow2(Bits) as real)
  }

  /**
   * A non-negative coefficient is rounded down to the grid of 2^-8: the
   * quantized value lies in `(k * 256 - 1, k * 256]`, so it reads back as `k`
   * to within one step.
   */
  lemma QuantizeBounds(k: real)
    requires k >= 0.0
    ensures 0 <= Quantize(k)
    ensures k * 256.0 - 1.0 < Quantize(k) as real <= k * 256.0
    ensures Quantize(k) as real / 256.0 <= k < (Quantize(k) + 1) as real / 256.0
  {
    assert Pow2(Bits) == 256;
  }

  /** Quantization keeps the order of the coefficients, and so the Gaussian's shape. */
  lemma QuantizeMono(a: real, b: real)
    requires a <= b
    ensures Quantize(a) <= Quantize(b)
  {
    assert Pow2(Bits) == 256;
  }

  /** The quantized vector: entry `i` is `Quantize(k[i])`, same length as `k`. */
  function QuantizeAll(k: seq<real>): (q: seq<int>)
    ensures |q| == |k|
    ensures forall i :: 0 <= i < |k| ==> q[i] == Quantize(k[i])
  {
    if k == [] then [] else QuantizeAll(k[..|k| - 1]) + [Quantize(k[|k| - 1])]
  }

  /**
   * The final shift of the column filter, `2 * bits`, matches the two `2^bits`
   * scalings of a row and a column coefficient: the product of the quantized
   * non-negative coefficients, shifted by 16, falls short of `a * b` by at least
   * 0 and at most `(a + b) / 2^bits`.
   */
  lemma QuantizedProductBound(a: real, b: real)
    requires a >= 0.0 && b >= 0.0
    ensures Pow2(2 * Bits) == Pow2(Bits) * Pow2(Bits) == 0x1_0000
    ensures 0.0 <= a * b * Pow2(2 * Bits) as real - (Quantize(a) * Quantize(b)) as real <= Pow2(Bits) as real * (a + b)
  {
    ScaleFactors();
    var qa, qb := Quantize(a), Quantize(b);
    TruncatedProduct(a * 256.0, b * 256.0, qa as real, qb as real);
    ScaledProduct(a, b, qa, qb);
  }

  /** `1 << bits` is 256 and `1 << (2 * bits)` is its square. */
  lemma ScaleFactors()
    ensures Pow2(Bits) == 256
    ensures Pow2(2 * Bits) == Pow2(Bits) * Pow2(Bits) == 0x1_0000
  {
    Pow2Add(Bits, Bits);
    assert Pow2(Bits) == 256;
  }

  /**
   * The error term of `QuantizedProductBound` in the scaled coordinates of
   * `TruncatedProduct`: the two scalings by 256 multiply to 2^16, and an
   * integer product converts to a real factor by factor.
   */
  lemma ScaledProduct(a: real, b: real, qa: int, qb: int)
    requires Pow2(Bits) == 256 && Pow2(2 * Bits) == 0x1_0000
    ensures a * b * Pow2(2 * Bits) as real - (qa * qb) as real == (a * 256.0) * (b * 256.0) - qa as real * qb as real
    ensures Pow2(Bits) as real * (a + b) == a * 256.0 + b * 256.0
  {
    assert a * b * 65536.0 == (a * 256.0) * (b * 256.0);
  }

  /**
   * Two values each truncated down by less than one: their product loses at
   * least nothing and at most the sum of the two values.
   */
  lemma TruncatedProduct(x: real, y: real, qx: real, qy: real)
    requires 0.0 <= qx <= x < qx + 1.0 && 0.0 <= qy <= y < qy + 1.0
    ensures 0.0 <= x * y - qx * qy <= x + y
  {
    var dx, dy := x - qx, y - qy;
    RealScale(x, dy);
    RealScale(qy, dx);
    SumBound(x * y - qx * qy, x * dy, qy * dx, x, qy);
  }

  /** A sum of two bounded non-negative parts is bounded by the sum of the bounds. */
  lemma SumBound(s: real, a: real, b: real, ua: real, ub: real)
    requires s == a + b && 0.0 <= a <= ua && 0.0 <= b <= ub
    ensures 0.0 <= s <= ua + ub
  {
  }

  /** Scaling by a fraction in [0, 1] keeps a non-negative value between 0 and itself. */
  lemma RealScale(x: real, f: real)
    requires x >= 0.0 && 0.0 <= f <= 1.0
    ensures 0.0 <= x * f <= x
  {
    assert x - x * f == x * (1.0 - f);
  }

  /**
   * The loops that fill `kernel_row_int` and `kernel_column_int`: entry `i`
   * becomes `static_cast<int>(k[i] * (1 << bits))`, in index order.
   */
  method QuantizeInto(k: seq<real>, out: array<int>)
    requires out.Length == |k|
    modifies out
    ensures out[..] == QuantizeAll(k)
  {
    var scale := Pow2(Bits);
    var i := 0;
    while i < |k|
      invariant 0 <= i <= |k|
      invariant forall j :: 0 <= j < i ==> out[j] == Quantize(k[j])
    {
      out[i] := Trunc(k[i] * scale as real);
      i := i + 1;
    }
  }

  /**
   * The batch loop: `filter.apply` on image 0, 1, ..., n - 1 of the batch, in
   * that order; the result lists the images in call order.
   */
  method ApplyEach(n: nat) returns (applied: seq<nat>)
    ensures applied == Upto(n)
  {
    applied := [];
    var i := 0;
    while i < n
      invariant 0 <= i <= n && applied == Upto(i)
    {
      UptoSnoc(i);
      applied := applied + [i];
      i := i + 1;
    }
  }

  /**
   * What a successful run on `path` looks like: the row filter is built from
   * `kernel_column` and the column filter from `kernel_row` (quantized on the
   * 8-bit path, whose column filter shifts by `2 * bits`), and every batch
   * image is filtered once, in order.
   */
  ghost predicate Planned(run: Run, path: Path, kernelColumn: seq<real>, kernelRow: seq<real>, channels: nat,
                          border: BorderMode, batch: nat)
  {
    && run.path == path
    && run.channels == channels && run.border == border
    && (path == FloatPath ==>
          run.rowCoeffs == Floats(kernelColumn) && run.columnCoeffs == Floats(kernelRow) && run.columnShift == 0)
    && (path == FixedPoint8 ==>
          && run.rowCoeffs == Ints(QuantizeAll(kernelColumn))
          && run.columnCoeffs == Ints(QuantizeAll(kernelRow))
          && run.columnShift == 2 * Bits)
    && run.applied == Upto(batch)
  }

  /**
   * `gaussian_blur_exec<float>`: build the engine from the float kernels,
   * reject BORDER_ISOLATED, then filter the batch.
   */
  method GaussianBlurExecFloat(p: Param, batch: nat, channels: nat, kernelColumn: seq<real>, kernelRow: seq<real>)
    returns (r: Result<Run, BlurError>)
    ensures p.border == Isolated ==> r == Err(IsolatedBorder)
    ensures p.border != Isolated ==> r.Ok? && Planned(r.value, FloatPath, kernelColumn, kernelRow, channels, p.border, batch)
  {
    if p.border == Isolated {
      return Err(IsolatedBorder);
    }
    var applied := ApplyEach(batch);
    r := Ok(Run(FloatPath, Floats(kernelColumn), Floats(kernelRow), 0, channels, p.border, applied));
  }

  /**
   * `gaussian_blur_exec_8u`: the source must be Uint8; the kernels are
   * quantized to `Bits` fraction bits, the column filter shifts by `2 * Bits`;
   * BORDER_ISOLATED is rejected after the engine is built; then the batch is
   * filtered.
   */
  method GaussianBlurExec8u(p: Param, src: DType, batch: nat, channels: nat, kernelColumn: seq<real>, kernelRow: seq<real>)
    returns (r: Result<Run, BlurError>)
    ensures src != Uint8 ==> r == Err(SrcNotUint8(src))
    ensures src == Uint8 && p.border == Isolated ==> r == Err(IsolatedBorder)
    ensures src == Uint8 && p.border != Isolated ==>
              r.Ok? && Planned(r.value, FixedPoint8, kernelColumn, kernelRow, channels, p.border, batch)
  {
    if src != Uint8 {
      return Err(SrcNotUint8(src));
    }
    var columnInt := new int[|kernelColumn|];
    var rowInt := new int[|kernelRow|];
    QuantizeInto(kernelRow, rowInt);
    QuantizeInto(kernelColumn, columnInt);
    if p.border == Isolated {
      return Err(IsolatedBorder);
    }
    var applied := ApplyEach(batch);
    r := Ok(Run(FixedPoint8, Ints(columnInt[..]), Ints(rowInt[..]), 2 * Bits, channels, p.border, applied));
  }

  /**
   * `GaussianBlurImpl::exec`: Float32 destinations take the float path, Uint8
   * the 8-bit path, any other element type is rejected. `kernelColumn` has
   * `kernel_width` entries and `kernelRow` `kernel_height`, as the kernel
   * matrices are sized; the row filter then has `kernel_width` taps and the
   * column filter `kernel_height`.
   */
  method Exec(p: Param, src: DType, dst: DType, batch: nat, channels: nat, kernelColumn: seq<real>, kernelRow: seq<real>)
    returns (r: Result<Run, BlurError>)
    requires |kernelColumn| == p.kernelWidth && |kernelRow| == p.kernelHeight
    ensures dst != Float32 && dst != Uint8 ==> r == Err(UnsupportedDType(dst))
    ensures dst == Float32 ==> (r.Ok? <==> p.border != Isolated)
    ensures dst == Uint8 ==> (r.Ok? <==> src == Uint8 && p.border != Isolated)
    ensures dst == Uint8 && src != Uint8 ==> r == Err(SrcNotUint8(src))
    ensures (dst == Float32 || (dst == Uint8 && src == Uint8)) && p.border == Isolated ==> r == Err(IsolatedBorder)
    ensures r.Ok? ==> Planned(r.value, if dst == Float32 then FloatPath else FixedPoint8,
                              kernelColumn, kernelRow, channels, p.border, batch)
    ensures r.Ok? ==> CoeffsLen(r.value.rowCoeffs) == p.kernelWidth && CoeffsLen(r.value.columnCoeffs) == p.kernelHeight
  {
    if dst == Float32 {
      r := GaussianBlurExecFloat(p, batch, channels, kernelColumn, kernelRow);
    } else if dst == Uint8 {
      r := GaussianBlurExec8u(p, src, batch, channels, kernelColumn, kernelRow);
    } else {
      r := Err(UnsupportedDType(dst));
    }
  }
}
