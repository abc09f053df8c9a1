/**
 * Shared vocabulary of the CPU image kernels: error-carrying results, the
 * element types a tensor can declare, the integer helpers of the common
 * utilities (min, div_ceil, powers of two, 16-bit casts) and the few facts
 * about Euclidean division that the index arithmetic of the kernels rests on.
 */
module Common {

  /** Outcome of an operator call: a value, or the error the operator raises. */
  datatype Result<+T, +E> = Ok(value: T) | Err(error: E)

  /** Element type a tensor layout declares (the subset the kernels dispatch on). */
  datatype DType = Float32 | Float16 | Int8 | Uint8 | Int16 | Int32

  function Min(a: nat, b: nat): (m: nat)
    ensures m <= a && m <= b
    ensures m == a || m == b
  {
    if a < b then a else b
  }

  /** `div_ceil(a, b)`: the number of blocks of size `b` needed to hold `a` items. */
  function DivCeil(a: nat, b: nat): (q: nat)
    requires b > 0
    ensures a <= q * b
    ensures q == 0 || (q - 1) * b < a
  {
    DivCeilLeast(a, b);
    (a + b - 1) / b
  }

  lemma DivCeilLeast(a: nat, b: nat)
    requires b > 0
    ensures a <= ((a + b - 1) / b) * b
    ensures (a + b - 1) / b == 0 || ((a + b - 1) / b - 1) * b < a
  {
    var q := (a + b - 1) / b;
    var r := (a + b - 1) % b;
    assert q * b + r == a + b - 1;
    assert 0 <= r < b;
    assert (q - 1) * b == q * b - b;
  }

  /** `1 << n` */
  function Pow2(n: nat): (p: nat)
    ensures p >= 1
  {
    if n == 0 then 1 else 2 * Pow2(n - 1)
  }

  /** Shifting by `m + n` is shifting by `m`, then by `n`. */
  lemma {:induction false} Pow2Add(m: nat, n: nat)
    ensures Pow2(m + n) == Pow2(m) * Pow2(n)
  {
    if m > 0 {
      Pow2Add(m - 1, n);
      assert Pow2(m + n) == 2 * Pow2(m - 1 + n);
    }
  }

  /** A wider shift gives a larger power. */
  lemma {:induction false} Pow2Mono(m: nat, n: nat)
    requires m <= n
    ensures Pow2(m) <= Pow2(n)
  {
    if m < n {
      Pow2Mono(m, n - 1);
    }
  }

  /** The indices `0, 1, ..., n - 1`, in the order a counter from 0 produces them. */
  function Upto(n: nat): (s: seq<nat>)
    ensures |s| == n
  {
    if n == 0 then [] else Upto(n - 1) + [n - 1]
  }

  /** Entry `i` of `Upto(n)` is `i`: each index appears once, in increasing order. */
  lemma {:induction false} UptoAt(n: nat, i: nat)
    requires i < n
    ensures Upto(n)[i] == i
  {
    if i < n - 1 {
      UptoAt(n - 1, i);
    }
  }

  /** Counting one step further appends the next index. */
  lemma UptoSnoc(n: nat)
    ensures Upto(n) + [n] == Upto(n + 1)
  {
  }

  /** `saturate_cast<short>(v)`: clamp an int into the 16-bit signed range. */
  function SaturateShort(v: int): (s: int)
    ensures -0x8000 <= s < 0x8000
    ensures -0x8000 <= v < 0x8000 ==> s == v
    ensures v < -0x8000 ==> s == -0x8000
    ensures 0x8000 <= v ==> s == 0x7fff
  {
    if v < -0x8000 then -0x8000 else if 0x7fff < v then 0x7fff else v
  }

  /** `(short)v`: keep the low 16 bits of `v` as a two's-complement value. */
  function ShortCast(v: int): (s: int)
    ensures -0x8000 <= s < 0x8000
    ensures (s - v) % 0x1_0000 == 0
  {
    (v + 0x8000) % 0x1_0000 - 0x8000
  }

  /** A value that already fits in 16 bits survives the `(short)` cast unchanged. */
  lemma ShortCastFits(v: int)
    requires -0x8000 <= v < 0x8000
    ensures ShortCast(v) == v
  {
    var u := v + 0x8000;
    assert 0 <= u < 0x1_0000;
    assert u % 0x1_0000 == u;
  }

  // ---------------------------------------------------------------------
  // Facts about Euclidean division used by every flat-index decomposition.

  /** Quotient and remainder are unique: `q * d + r` with `0 <= r < d` splits back into `q` and `r`. */
  lemma DivModUnique(q: int, r: int, d: int)
    requires d > 0 && 0 <= r < d
    ensures (q * d + r) / d == q
    ensures (q * d + r) % d == r
  {
    var n := q * d + r;
    var q', r' := n / d, n % d;
    assert q' * d + r' == n;
    MulMonoIf(q + 1, q', d);
    MulMonoIf(q' + 1, q, d);
    MulSucc(q, d);
    MulSucc(q', d);
  }

  lemma MulMono(a: int, b: int, d: int)
    requires a <= b && d >= 0
    ensures a * d <= b * d
  {
    assert b * d - a * d == (b - a) * d;
  }

  /** `MulMono` as an implication, for use where the hypothesis may fail. */
  lemma MulMonoIf(a: int, b: int, d: int)
    ensures a <= b && d >= 0 ==> a * d <= b * d
  {
    if a <= b && d >= 0 {
      MulMono(a, b, d);
    }
  }

  lemma MulSucc(a: int, b: int)
    ensures (a + 1) * b == a * b + b
  {
  }

  /** A flat index below `a * b` has quotient by `b` below `a`. */
  lemma DivBound(k: int, a: int, b: int)
    requires 0 <= k < a * b && b > 0
    ensures 0 <= k / b < a
  {
    assert (k / b) * b + k % b == k;
    MulMonoIf(a, k / b, b);
  }

  /** Row-major cells: `(row, col)` with `row < rows`, `col < cols` lies below `rows * cols`. */
  lemma CellBound(row: int, col: int, rows: int, cols: int)
    requires 0 <= row < rows && 0 <= col < cols
    ensures 0 <= row * cols + col < rows * cols
  {
    MulMono(row + 1, rows, cols);
    assert (row + 1) * cols == row * cols + cols;
  }

  /** Rounding down to a multiple of `d` never increases a value. */
  lemma MulDivLe(a: nat, d: nat)
    requires d > 0
    ensures (a / d) * d <= a
  {
    assert (a / d) * d + a % d == a;
  }

  /** `x * d <= a` exactly when `x <= a / d`; this is the direction from the product to the quotient. */
  lemma DivLowerBound(x: nat, a: nat, d: nat)
    requires d > 0 && x * d <= a
    ensures x <= a / d
  {
    assert (a / d) * d + a % d == a;
    MulMonoIf(a / d + 1, x, d);
    MulSucc(a / d, d);
  }
}
