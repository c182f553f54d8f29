// Model of the arithmetic and word macros of types.h.
//
// The arithmetic macros (RND8, MUL_M, DIV_M, REM_M, REM_Y, ARR2_POS) accept
// any C `int`.  The model restricts them to non-negative operands: they are
// modelled on `nat` with an explicit bound INT_MAX on every intermediate
// value.  C shifts of a non-negative value move the bits one position per
// step: a left shift by one doubles, a right shift by one halves rounding
// down.  The word macros (MAKEWORD, LOWORD, HIWORD) work on the 32-bit
// pattern of their operands and are modelled on `bv32`.
module Types {

  /** The largest value of a 32-bit C `int`. */
  const INT_MAX: nat := 0x7FFF_FFFF

  /** 2 to the power m. */
  function Pow2(m: nat): (r: nat)
    ensures r >= 1
  {
    if m == 0 then 1 else 2 * Pow2(m - 1)
  }

  /** C `x << m` on a non-negative int: m one-bit left shifts. */
  function Shl(x: nat, m: nat): nat
  {
    if m == 0 then x else 2 * Shl(x, m - 1)
  }

  /** C `x >> m` on a non-negative int: m one-bit right shifts. */
  function Shr(x: nat, m: nat): nat
  {
    if m == 0 then x else Shr(x, m - 1) / 2
  }

  /** C `x & y` on non-negative ints, bit by bit from the least significant. */
  function BitAnd(x: nat, y: nat): nat
  {
    if x == 0 || y == 0 then 0
    else 2 * BitAnd(x / 2, y / 2) + (if x % 2 == 1 && y % 2 == 1 then 1 else 0)
  }

  // ---------------------------------------------------------------------
  // The macros (types.h:130-162)

  /** RND8(x): ((x + 7) >> 3) << 3. */
  function Rnd8(x: nat): nat
    requires x + 7 <= INT_MAX
  {
    Shl(Shr(x + 7, 3), 3)
  }

  /** MUL_M(x, m): x << m. */
  function MulM(x: nat, m: nat): nat
    requires m < 32 && x * Pow2(m) <= INT_MAX
  {
    Shl(x, m)
  }

  /** DIV_M(x, m): x >> m. */
  function DivM(x: nat, m: nat): nat
    requires x <= INT_MAX && m < 32
  {
    Shr(x, m)
  }

  /** REM_M(x, m): x - ((x >> m) << m). */
  function RemM(x: nat, m: nat): int
    requires x <= INT_MAX && m < 32
  {
    x - Shl(Shr(x, m), m)
  }

  /** REM_Y(x, y): x & (y - 1). */
  function RemY(x: nat, y: nat): nat
    requires x <= INT_MAX && 0 < y <= INT_MAX
  {
    BitAnd(x, y - 1)
  }

  /** ARR2_POS(a, i, j): i * (number of columns of a) + j. */
  function Arr2Pos(cols: nat, i: nat, j: nat): nat
  {
    i * cols + j
  }

  /** MAKEWORD(x, y): low 16 bits of x below the low 16 bits of y. */
  function MakeWord(x: bv32, y: bv32): bv32
  {
    (x & 0xffff) | ((y & 0xffff) << 16)
  }

  /** LOWORD(w): the low 16 bits of w. */
  function LoWord(w: bv32): bv32
  {
    w & 0xffff
  }

  /** HIWORD(w): the high 16 bits of w, moved down. */
  function HiWord(w: bv32): bv32
  {
    (w & 0xffff0000) >> 16
  }

  // ---------------------------------------------------------------------
  // Arithmetic facts used below

  lemma MulLe(d: nat, a: nat, b: nat)
    requires a <= b
    ensures d * a <= d * b
  {
    var k := b - a;
    assert d * b == d * a + d * k;
  }

  lemma DivModUnique(a: nat, d: nat, q: nat, r: nat)
    requires d > 0 && a == d * q + r && r < d
    ensures a / d == q && a % d == r
  {
    var q', r' := a / d, a % d;
    assert a == d * q' + r';
    if q' < q {
      MulLe(d, q' + 1, q);
      assert false;
    } else if q' > q {
      MulLe(d, q + 1, q');
      assert false;
    }
  }

  lemma HalfOfDiv(a: nat, p: nat)
    requires p > 0
    ensures a / p / 2 == a / (2 * p)
  {
    var q, r := a / (2 * p), a % (2 * p);
    assert a == (2 * p) * q + r;
    if r < p {
      DivModUnique(a, p, 2 * q, r);
      DivModUnique(2 * q, 2, q, 0);
    } else {
      DivModUnique(a, p, 2 * q + 1, r - p);
      DivModUnique(2 * q + 1, 2, q, 1);
    }
  }

  // ---------------------------------------------------------------------
  // Properties of the macros

  /** Shifting left by m multiplies by 2^m. */
  lemma {:induction false} ShlIsMul(x: nat, m: nat)
    ensures Shl(x, m) == x * Pow2(m)
  {
    if m > 0 {
      ShlIsMul(x, m - 1);
    }
  }

  /** Shifting a non-negative value right by m divides by 2^m, rounding down. */
  lemma {:induction false} ShrIsDiv(x: nat, m: nat)
    ensures Shr(x, m) == x / Pow2(m)
  {
    if m > 0 {
      ShrIsDiv(x, m - 1);
      HalfOfDiv(x, Pow2(m - 1));
    }
  }

  /** RND8(x) is the least multiple of 8 not below x; in particular a
      multiple of 8 is left as it is. */
  lemma Rnd8RoundsUp(x: nat)
    requires x + 7 <= INT_MAX
    ensures Rnd8(x) % 8 == 0
    ensures x <= Rnd8(x) < x + 8
    ensures x % 8 == 0 ==> Rnd8(x) == x
  {
    ShrIsDiv(x + 7, 3);
    ShlIsMul((x + 7) / 8, 3);
    var q := (x + 7) / 8;
    assert Rnd8(x) == 8 * q;
    DivModUnique(8 * q, 8, q, 0);
    if x % 8 == 0 {
      DivModUnique(x + 7, 8, x / 8, 7);
    }
  }

  /** MUL_M(x, m) == x * 2^m. */
  lemma MulMIsProduct(x: nat, m: nat)
    requires m < 32 && x * Pow2(m) <= INT_MAX
    ensures MulM(x, m) == x * Pow2(m)
  {
    ShlIsMul(x, m);
  }

  /** DIV_M(x, m) == x / 2^m. */
  lemma DivMIsQuotient(x: nat, m: nat)
    requires x <= INT_MAX && m < 32
    ensures DivM(x, m) == x / Pow2(m)
  {
    ShrIsDiv(x, m);
  }

  /** REM_M(x, m) == x % 2^m. */
  lemma RemMIsRemainder(x: nat, m: nat)
    requires x <= INT_MAX && m < 32
    ensures RemM(x, m) == x % Pow2(m)
  {
    ShrIsDiv(x, m);
    ShlIsMul(x / Pow2(m), m);
  }

  /** Quotient and remainder of naturals are naturals, the remainder below
      the divisor. */
  lemma DivModNat(a: nat, d: nat)
    requires d > 0
    ensures a / d >= 0 && 0 <= a % d < d && a == d * (a / d) + a % d
  {
  }

  lemma DoubleProduct(p: nat, q: nat)
    ensures (2 * p) * q == 2 * (p * q)
  {
  }

  /** x & (2^m - 1) keeps the m low bits of x. */
  lemma {:induction false} AndLowMask(x: nat, m: nat)
    ensures BitAnd(x, Pow2(m) - 1) == x % Pow2(m)
  {
    if m == 0 {
    } else if x == 0 {
    } else {
      var p := Pow2(m - 1);
      assert Pow2(m) == 2 * p;
      AndLowMask(x / 2, m - 1);
      assert (2 * p - 1) / 2 == p - 1 && (2 * p - 1) % 2 == 1;
      var h: nat, b: nat := x / 2, x % 2;
      DivModNat(h, p);
      var q: nat, r: nat := h / p, h % p;
      assert x == 2 * h + b && h == p * q + r;
      var low: nat := 2 * r + b;
      DoubleProduct(p, q);
      assert x == (2 * p) * q + low && low < 2 * p;
      DivModUnique(x, 2 * p, q, low);
    }
  }

  /** REM_Y(x, y) == x % y when y is a power of two. */
  lemma RemYIsRemainder(x: nat, m: nat)
    requires x <= INT_MAX && Pow2(m) <= INT_MAX
    ensures RemY(x, Pow2(m)) == x % Pow2(m)
  {
    AndLowMask(x, m);
  }

  /** ARR2_POS stays inside a rows x cols array and identifies the element:
      the row and column are recovered by division and remainder. */
  lemma Arr2PosInBounds(rows: nat, cols: nat, i: nat, j: nat)
    requires i < rows && j < cols
    ensures Arr2Pos(cols, i, j) < rows * cols
    ensures Arr2Pos(cols, i, j) / cols == i && Arr2Pos(cols, i, j) % cols == j
  {
    var p := Arr2Pos(cols, i, j);
    assert p == cols * i + j;
    MulLe(cols, i + 1, rows);
    assert cols * (i + 1) == cols * i + cols;
    assert cols * rows == rows * cols;
    DivModUnique(p, cols, i, j);
  }

  /** LOWORD and HIWORD take MAKEWORD apart again. */
  lemma WordSplit(x: bv32, y: bv32)
    ensures LoWord(MakeWord(x, y)) == x & 0xffff
    ensures HiWord(MakeWord(x, y)) == y & 0xffff
  {}

  /** MAKEWORD puts LOWORD and HIWORD back together. */
  lemma WordJoin(w: bv32)
    ensures MakeWord(LoWord(w), HiWord(w)) == w
  {}
}
