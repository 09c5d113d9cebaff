// Fixed-point and bit helpers shared by every texture operation
// (lib_ktg/ktg/helpers.h). All arithmetic is on mathematical integers;
// where the C++ code relies on 32-bit wrap-around or on a truncating
// store, that is written out with the Wrap/Trunc functions below.
module Helpers {

  const TWO16: int := 0x1_0000
  const TWO24: int := 0x100_0000
  const TWO31: int := 0x8000_0000
  const TWO32: int := 0x1_0000_0000

  type U32 = x: int | 0 <= x < 0x1_0000_0000
  type I32 = x: int | -0x8000_0000 <= x < 0x8000_0000

  /** 2^k */
  function Pow2(k: nat): (r: nat)
    ensures r >= 1
  {
    if k == 0 then 1 else 2 * Pow2(k - 1)
  }

  /** Two's-complement reinterpretation of an integer as a signed 32-bit value. */
  function ToInt32(v: int): (r: I32)
    ensures (v - r) % TWO32 == 0
    ensures -TWO31 <= v < TWO31 ==> r == v
  {
    (v + TWO31) % TWO32 - TWO31
  }

  /** The value a uint16_t field receives when an int is stored into it. */
  function Trunc16(v: int): (r: int)
    ensures 0 <= r < TWO16
    ensures (v - r) % TWO16 == 0
    ensures 0 <= v < TWO16 ==> r == v
  {
    v % TWO16
  }

  // ---------------------------------------------------------------------
  // Bitwise AND on non-negative integers, bit by bit from the lowest one.

  function BitAnd(a: nat, b: nat): (r: nat)
    ensures r <= a && r <= b
    decreases a
  {
    if a == 0 || b == 0 then 0 else 2 * BitAnd(a / 2, b / 2) + (a % 2) * (b % 2)
  }

  /** `x & y` on two 32-bit values, read as unsigned. */
  function And32(x: int, y: int): (r: nat)
    ensures r < TWO32
  {
    BitAnd(x % TWO32, y % TWO32)
  }

  lemma {:induction false} Pow2Add(a: nat, b: nat)
    ensures Pow2(a + b) == Pow2(a) * Pow2(b)
    decreases a
  {
    if a > 0 {
      Pow2Add(a - 1, b);
      assert Pow2(a + b) == 2 * Pow2(a - 1 + b);
    }
  }

  lemma {:induction false} Pow2Monotone(a: nat, b: nat)
    requires a <= b
    ensures Pow2(a) <= Pow2(b)
    decreases b
  {
    if a < b {
      Pow2Monotone(a, b - 1);
    }
  }

  lemma Pow2Values()
    ensures Pow2(1) == 2 && Pow2(2) == 4 && Pow2(4) == 16 && Pow2(8) == 256
    ensures Pow2(13) == 0x2000 && Pow2(14) == 0x4000
    ensures Pow2(16) == TWO16 && Pow2(23) == 0x80_0000 && Pow2(24) == TWO24
    ensures Pow2(31) == TWO31 && Pow2(32) == TWO32
  {
    assert Pow2(4) == 16 by {
      assert Pow2(1) == 2;
      assert Pow2(2) == 4;
      assert Pow2(3) == 8;
    }
    assert Pow2(8) == 256 by {
      Pow2Add(4, 4);
    }
    assert Pow2(16) == TWO16 by {
      Pow2Add(8, 8);
    }
    assert Pow2(13) == 0x2000 by {
      Pow2Add(8, 4);
      assert Pow2(13) == 2 * Pow2(12);
    }
    assert Pow2(14) == 0x4000;
    assert Pow2(24) == TWO24 by {
      Pow2Add(16, 8);
    }
    assert Pow2(23) == 0x80_0000 by {
      assert Pow2(24) == 2 * Pow2(23);
    }
    assert Pow2(32) == TWO32 by {
      Pow2Add(16, 16);
    }
    assert Pow2(31) == TWO31 by {
      assert Pow2(32) == 2 * Pow2(31);
    }
  }

  /** Splitting off the lowest bit of a remainder by a power of two. */
  lemma ModDouble(x: nat, m: nat)
    requires m >= 1
    ensures x % (2 * m) == 2 * ((x / 2) % m) + x % 2
  {
    var q := (x / 2) / m;
    var r := (x / 2) % m;
    assert x / 2 == m * q + r;
    assert x == 2 * (x / 2) + x % 2;
    assert x == (2 * m) * q + (2 * r + x % 2);
    assert 0 <= 2 * r + x % 2 < 2 * m;
    DivModUnique(x, 2 * m, q, 2 * r + x % 2);
  }

  lemma DivModUnique(n: int, d: int, q: int, r: int)
    requires d > 0 && 0 <= r < d && n == d * q + r
    ensures n / d == q && n % d == r
  {
    var q', r' := n / d, n % d;
    assert n == d * q' + r';
    var k := q - q';
    assert d * k == r' - r by {
      assert d * q - d * q' == d * (q - q');
    }
    if k >= 1 {
      MulAtLeast(d, k);
    } else if k <= -1 {
      MulAtLeast(d, -k);
    }
  }

  lemma MulAtLeast(d: int, k: int)
    requires d > 0 && k >= 1
    ensures d * k >= d
  {
  }

  /** Division is determined by bracketing the dividend between two multiples. */
  lemma DivBracket(n: int, d: int, q: int)
    requires d > 0 && d * q <= n < d * q + d
    ensures n / d == q
  {
    DivModUnique(n, d, q, n - d * q);
  }

  /** Masking with 2^k - 1 keeps the low k bits: `x & (2^k - 1) == x mod 2^k`. */
  lemma {:induction false} BitAndLowMask(x: nat, k: nat)
    ensures BitAnd(x, Pow2(k) - 1) == x % Pow2(k)
    decreases k
  {
    if k > 0 && x > 0 {
      var p := Pow2(k - 1);
      var m := Pow2(k) - 1;
      assert m == 2 * (p - 1) + 1;
      DivModUnique(m, 2, p - 1, 1);
      assert BitAnd(x, m) == 2 * BitAnd(x / 2, p - 1) + x % 2;
      BitAndLowMask(x / 2, k - 1);
      ModDouble(x, p);
      assert Pow2(k) == 2 * p;
      assert x % Pow2(k) == 2 * ((x / 2) % p) + x % 2;
    } else if k == 0 {
      assert Pow2(k) - 1 == 0;
      DivModUnique(x, 1, x, 0);
    } else {
      DivModUnique(0, Pow2(k), 0, 0);
    }
  }

  /** Reducing modulo a multiple of a first does not change the remainder mod a. */
  lemma ModOfMod(x: int, a: int, b: int)
    requires a > 0 && b > 0
    ensures (x % (a * b)) % a == x % a
  {
    var r := x % (a * b);
    var q := x / (a * b);
    assert x == (a * b) * q + r;
    assert r == a * (r / a) + r % a;
    assert x == a * (b * q + r / a) + r % a;
    DivModUnique(x, a, b * q + r / a, r % a);
  }

  /** Masking a 32-bit int with width - 1, width a power of two, is the (non-negative) remainder
      mod width, for negative x too. */
  lemma And32LowMask(x: int, width: int)
    requires 1 <= width <= 0x80_0000 && IsPowerOf2(width)
    ensures And32(x, width - 1) == x % width
  {
    Pow2Values();
    IsPowerOf2Spec(width);
    var k: nat :| width == Pow2(k);
    if k > 23 {
      Pow2Monotone(24, k);
    }
    Pow2Add(k, 32 - k);
    assert (width - 1) % TWO32 == width - 1;
    BitAndLowMask(x % TWO32, k);
    ModOfMod(x, width, Pow2(32 - k));
  }

  /** The same for a mask given by its bit count: `x & (2^k - 1) == x mod 2^k`. */
  lemma And32Mask(x: int, k: nat)
    requires k <= 23
    ensures And32(x, Pow2(k) - 1) == x % Pow2(k)
  {
    IsPowerOf2OfPow2(k);
    assert Pow2(k) <= 0x80_0000 by {
      Pow2Monotone(k, 23);
      Pow2Values();
    }
    And32LowMask(x, Pow2(k));
  }

  /** The AND of x with an even mask 2m looks only at the bits of x above the lowest. */
  lemma BitAndEvenMask(x: nat, m: nat)
    requires x > 0 && m > 0
    ensures BitAnd(x, 2 * m) == 2 * BitAnd(x / 2, m)
  {
    DivModUnique(2 * m, 2, m, 0);
  }

  /** A mask that covers bits lo..hi-1 sees a value below 2^hi iff it is at least 2^lo. */
  lemma {:induction false} BitAndHighMask(x: nat, lo: nat, hi: nat)
    requires lo <= hi && Pow2(lo) <= Pow2(hi) && x < Pow2(hi)
    ensures BitAnd(x, Pow2(hi) - Pow2(lo)) == 0 <==> x < Pow2(lo)
    decreases lo
  {
    if lo == 0 {
      BitAndLowMask(x, hi);
      DivModUnique(x, Pow2(hi), 0, x);
    } else if x > 0 && lo < hi {
      var ph, pl := Pow2(hi - 1), Pow2(lo - 1);
      assert Pow2(hi) == 2 * ph && Pow2(lo) == 2 * pl;
      Pow2Monotone(lo, hi - 1);
      var h, m := x / 2, ph - pl;
      assert x == 2 * h + x % 2;
      assert h < ph;
      assert Pow2(hi) - Pow2(lo) == 2 * m;
      BitAndEvenMask(x, m);
      BitAndHighMask(h, lo - 1, hi - 1);
      assert h < pl <==> x < 2 * pl;
    } else if lo == hi {
      assert Pow2(hi) - Pow2(lo) == 0;
    }
  }

  lemma {:induction false} BitAndSelf(y: nat)
    ensures BitAnd(y, y) == y
    decreases y
  {
    if y > 0 {
      BitAndSelf(y / 2);
    }
  }

  /** Two values that both have bit k as their top bit keep it in their AND. */
  lemma {:induction false} BitAndTopBit(a: nat, b: nat, k: nat)
    requires Pow2(k) <= a < Pow2(k + 1) && Pow2(k) <= b < Pow2(k + 1)
    ensures BitAnd(a, b) >= Pow2(k)
    decreases k
  {
    if k > 0 {
      assert Pow2(k + 1) == 2 * Pow2(k) && Pow2(k) == 2 * Pow2(k - 1);
      BitAndTopBit(a / 2, b / 2, k - 1);
    }
  }

  // ---------------------------------------------------------------------
  // IsPowerOf2 (lib_ktg/ktg/helpers.h:42-45)

  ghost predicate IsPow2(x: int) {
    exists k: nat :: x == Pow2(k)
  }

  /** `(x & (x - 1)) == 0` on a 32-bit int; INT_MIN is excluded since `x - 1` overflows there. */
  predicate IsPowerOf2(x: int)
    requires -TWO31 < x < TWO31
  {
    And32(x, x - 1) == 0
  }

  lemma {:induction false} BitAndPred(x: nat)
    requires x >= 1
    ensures BitAnd(x, x - 1) == 0 <==> IsPow2(x)
    decreases x
  {
    if x == 1 {
      assert x == Pow2(0);
    } else if x % 2 == 0 {
      var y := x / 2;
      assert (x - 1) / 2 == y - 1 && (x - 1) % 2 == 1;
      assert BitAnd(x, x - 1) == 2 * BitAnd(y, y - 1);
      BitAndPred(y);
      if IsPow2(y) {
        var k: nat :| y == Pow2(k);
        assert x == Pow2(k + 1);
      }
      if IsPow2(x) {
        var k: nat :| x == Pow2(k);
        assert k > 0;
        assert y == Pow2(k - 1);
      }
    } else {
      var y := x / 2;
      assert (x - 1) / 2 == y && (x - 1) % 2 == 0;
      assert BitAnd(x, x - 1) == 2 * BitAnd(y, y);
      BitAndSelf(y);
      assert !IsPow2(x) by {
        forall k: nat ensures x != Pow2(k) {
          if k > 0 {
            DivModUnique(Pow2(k), 2, Pow2(k - 1), 0);
          }
        }
      }
    }
  }

  /** IsPowerOf2 holds exactly for 0 and the positive powers of two. */
  lemma IsPowerOf2Spec(x: int)
    requires -TWO31 < x < TWO31
    ensures IsPowerOf2(x) <==> x == 0 || (x > 0 && IsPow2(x))
  {
    Pow2Values();
    if x == 0 {
      assert And32(0, -1) == BitAnd(0, TWO32 - 1) == 0;
    } else if x > 0 {
      assert x % TWO32 == x && (x - 1) % TWO32 == x - 1;
      BitAndPred(x);
    } else {
      var a := x % TWO32;
      var b := (x - 1) % TWO32;
      assert a == x + TWO32 && b == x - 1 + TWO32;
      BitAndTopBit(a, b, 31);
    }
  }

  lemma IsPowerOf2OfPow2(k: nat)
    requires k <= 30
    ensures Pow2(k) < TWO31 && IsPowerOf2(Pow2(k))
  {
    Pow2Values();
    assert Pow2(k) < Pow2(31) by {
      Pow2Monotone(k + 1, 31);
    }
    IsPowerOf2Spec(Pow2(k));
  }

  // ---------------------------------------------------------------------
  // clamp (lib_ktg/ktg/helpers.h:47-51)

  /** `(val >= max) ? max : (val <= min) ? min : val` */
  function Clamp(v: int, lo: int, hi: int): (r: int)
    ensures lo <= hi ==> lo <= r <= hi
    ensures lo <= v <= hi ==> r == v
    ensures lo <= hi ==> (v < lo ==> r == lo) && (v > hi ==> r == hi)
    ensures lo > hi ==> r == hi || r == lo
  {
    if v >= hi then hi else if v <= lo then lo else v
  }

  // ---------------------------------------------------------------------
  // Division facts used by FloorLog2 and the texture coordinates.

  /** Pixel j of a row-major buffer X wide is (j % X, j / X); row y holds k .. k + X - 1. */
  lemma RowSlots(k: int, X: int, y: int)
    requires X > 0 && k == y * X
    ensures forall j :: k <= j < k + X ==> j % X == j - k && j / X == y
  {
    forall j | k <= j < k + X
      ensures j % X == j - k && j / X == y
    {
      DivModUnique(j, X, y, j - k);
    }
  }

  /** Cell k of a row-major grid X wide and Y high lies in row k / X, column k % X. */
  lemma GridCell(k: int, X: int, Y: int)
    requires X > 0 && 0 <= k < X * Y
    ensures 0 <= k / X < Y && 0 <= k % X < X && k == (k / X) * X + k % X
    ensures (k / X) * X + X <= X * Y
  {
    var y := k / X;
    assert k == X * y + k % X;
    if y >= Y {
      MulMonotone(X, Y, y);
    }
    MulMonotone(X, y + 1, Y);
  }

  /** Row y, column x of a row-major grid X wide and Y high is cell y * X + x. */
  lemma GridIndex(y: int, x: int, X: int, Y: int)
    requires 0 <= x < X && 0 <= y < Y
    ensures 0 <= y * X + x < X * Y && (y * X + x) / X == y && (y * X + x) % X == x
  {
    MulMonotone(X, y + 1, Y);
    DivModUnique(y * X + x, X, y, x);
  }

  lemma RowBounds(y: int, X: int, Y: int)
    requires X > 0 && 0 <= y < Y
    ensures 0 <= y * X && y * X + X <= X * Y
  {
    MulMonotone(X, y + 1, Y);
  }

  /** A cell of an earlier row of a grid lies before row y. */
  lemma EarlierRow(y': int, y: int, x: int, X: int)
    requires 0 <= y' < y && 0 <= x < X
    ensures 0 <= y' * X + x < y * X
  {
    MulMonotone(X, y' + 1, y);
    MulMonotone(X, 0, y');
  }

  lemma MulMonotone(m: int, b: int, c: int)
    requires m >= 0 && b <= c
    ensures m * b <= m * c
  {
    assert m * c - m * b == m * (c - b);
  }

  lemma DivLess(x: nat, A: nat, B: nat)
    requires A > 0 && x < A * B
    ensures x / A < B
  {
    var q := x / A;
    assert x == A * q + x % A;
    if q >= B {
      MulMonotone(A, B, q);
    }
  }

  /** A bracket on x / A gives a bracket on x. */
  lemma DivBracketInverse(x: nat, A: nat, lo: nat, hi: nat)
    requires A > 0 && lo <= x / A < hi
    ensures A * lo <= x < A * hi
  {
    var q := x / A;
    assert x == A * q + x % A;
    MulMonotone(A, lo, q);
    MulMonotone(A, q + 1, hi);
  }

  lemma DivPow2Bracket(x: nat, a: nat, e: nat, n: nat)
    requires n == a + e && Pow2(e) <= x / Pow2(a) < Pow2(e + 1)
    ensures Pow2(n) <= x < Pow2(n + 1)
  {
    Pow2Add(a, e);
    Pow2Add(a, e + 1);
    DivBracketInverse(x, Pow2(a), Pow2(e), Pow2(e + 1));
  }

  lemma DivDiv(x: nat, A: nat, B: nat)
    requires A > 0 && B > 0
    ensures A * B > 0 && x / A / B == x / (A * B)
  {
    MulAtLeast(A, B);
    var q1 := x / A;
    var q2 := q1 / B;
    var r1 := x % A;
    var r2 := q1 % B;
    assert x == A * q1 + r1;
    assert q1 == B * q2 + r2;
    assert A * q1 == (A * B) * q2 + A * r2;
    MulMonotone(A, r2, B - 1);
    assert A * (B - 1) == A * B - A;
    DivModUnique(x, A * B, q2, A * r2 + r1);
  }

  lemma DivDivPow2(x: nat, a: nat, b: nat)
    ensures x / Pow2(a) / Pow2(b) == x / Pow2(a + b)
  {
    Pow2Add(a, b);
    DivDiv(x, Pow2(a), Pow2(b));
  }

  // ---------------------------------------------------------------------
  // FloorLog2 (lib_ktg/ktg/helpers.h:53-74), for the non-negative sizes it
  // is called with. Each step tests `x & mask` and, when it is non-zero,
  // does `x >>= s, res += s`; a right shift of a non-negative int is a
  // division by 2^s. For 0 <= x < 2^31 the unsigned `x & 0xffff0000` is
  // the AND of the two non-negative values.

  /** The mask 2^(2s) - 2^s is non-zero on x < 2^(2s) exactly when x >= 2^s. */
  lemma MaskTest(x: nat, s: nat, p: nat, mask: nat)
    requires p == Pow2(s) && mask + p == Pow2(s + s) && x < mask + p
    ensures BitAnd(x, mask) != 0 <==> x >= p
  {
    Pow2Monotone(s, s + s);
    BitAndHighMask(x, s, s + s);
    assert mask == Pow2(s + s) - Pow2(s);
  }

  /** Shifting x == x0 / 2^res by s, when 2^s <= x < 2^(2s), keeps the relation for res + s. */
  lemma MaskShift(x0: nat, x: nat, res: nat, s: nat, n: nat, p: nat)
    requires n == res + s && p == Pow2(s)
    requires x == x0 / Pow2(res) && p <= x < Pow2(s + s)
    ensures x / p == x0 / Pow2(n) && 1 <= x / p < p
  {
    Pow2Add(s, s);
    DivLess(x, p, p);
    DivDivPow2(x0, res, s);
    DivBracket(p, p, 1);
    DivMonotone(p, x, p);
  }

  /** One step of FloorLog2, `if (x & mask) { x >>= s; res += s; }`, on x == x0 / 2^res with
      1 <= x < 2^(2s): the mask is 2^(2s) - 2^s, and afterwards x == x0 / 2^res with 1 <= x < 2^s. */
  method ShiftIfMasked(ghost x0: nat, x: nat, res: nat, s: nat, p: nat, mask: nat) returns (x1: nat, r1: nat)
    requires p == Pow2(s) && mask + p == Pow2(s + s)
    requires x == x0 / Pow2(res) && 1 <= x < mask + p
    ensures x1 == x0 / Pow2(r1) && 1 <= x1 < p
    ensures r1 == res || r1 == res + s
  {
    MaskTest(x, s, p, mask);
    x1, r1 := x, res;
    if BitAnd(x, mask) != 0 {
      MaskShift(x0, x, res, s, res + s, p);
      x1, r1 := x / p, res + s;
    }
  }

  /** The last step, `if (x & 0x2) res += 1;`, on 1 <= x < 4 ends the search. */
  method LastShift(ghost x0: nat, x: nat, res: nat) returns (r1: nat)
    requires x == x0 / Pow2(res) && 1 <= x < 4
    ensures Pow2(r1) <= x0 < Pow2(r1 + 1)
  {
    assert Pow2(0) == 1 && Pow2(1) == 2 && Pow2(2) == 4;
    MaskTest(x, 1, 2, 2);
    r1 := res;
    if BitAnd(x, 0x2) != 0 {
      DivPow2Bracket(x0, res, 1, res + 1);
      r1 := res + 1;
    } else {
      DivPow2Bracket(x0, res, 0, res);
    }
  }

  /** The powers of two behind FloorLog2's masks. */
  lemma MaskConstants()
    ensures Pow2(0) == 1 && Pow2(1) == 2 && Pow2(2) == 4 && Pow2(4) == 0x10
    ensures Pow2(8) == 0x100 && Pow2(16) == 0x10000 && Pow2(32) == 0x1_0000_0000
  {
    Pow2Values();
  }

  /** `floor(log2(x))`, written as the C++ code computes it: 2^res <= x < 2^(res+1). */
  method FloorLog2(x0: int) returns (res: nat)
    requires 0 <= x0 < TWO31
    ensures x0 == 0 ==> res == 0
    ensures x0 >= 1 ==> Pow2(res) <= x0 < Pow2(res + 1)
  {
    res := 0;
    if x0 == 0 {
      return;
    }
    MaskConstants();
    var x: nat := x0;
    assert x == x0 / Pow2(res) by {
      DivModUnique(x0, 1, x0, 0);
    }
    x, res := ShiftIfMasked(x0, x, res, 16, 0x10000, 0xffff0000);
    x, res := ShiftIfMasked(x0, x, res, 8, 0x100, 0x0000ff00);
    x, res := ShiftIfMasked(x0, x, res, 4, 0x10, 0x000000f0);
    x, res := ShiftIfMasked(x0, x, res, 2, 0x4, 0x0000000c);
    res := LastShift(x0, x, res);
  }

  /** Exponents of powers of two are unique: 2^r <= 2^k < 2^(r+1) forces r == k. */
  lemma Pow2Log(k: nat, r: nat)
    requires Pow2(r) <= Pow2(k) < Pow2(r + 1)
    ensures r == k
  {
    if r < k {
      Pow2Monotone(r + 1, k);
    } else if r > k {
      Pow2Monotone(k + 1, r);
    }
  }

  // ---------------------------------------------------------------------
  // MulIntens (lib_ktg/ktg/helpers.h:76-82): uint32_t arithmetic, so both
  // the product and the sum wrap modulo 2^32.

  function MulIntens(a: U32, b: U32): U32 {
    var x := (a * b + 0x8000) % TWO32;
    ((x + x / 0x10000) % TWO32) / 0x10000
  }

  lemma ProductBound(a: nat, b: nat, ma: nat, mb: nat)
    requires a <= ma && b <= mb
    ensures a * b <= ma * mb
  {
    assert a * b <= ma * b;
    assert ma * b <= ma * mb;
  }

  /** `(x + (x >> 16)) >> 16` divides by 65535 with rounding, for x = a*b + 0x8000. */
  lemma ShiftRound(x: int)
    requires 0x8000 <= x <= 0xFFFE_8001
    ensures ((x + x / 0x10000) % TWO32) / 0x10000 == (x - 1) / 65535
    ensures -32767 <= x - 0x8000 - 65535 * ((x - 1) / 65535) <= 32767
  {
    var k := (x - 1) / 65535;
    var r := (x - 1) % 65535;
    assert x - 1 == 65535 * k + r;
    assert 0 <= k <= 65535 by {
      DivLess(x - 1, 65535, 65536);
    }
    var s := r + 1;
    var h := x / 0x10000;
    if s >= k {
      DivBracket(x, 0x10000, k);
    } else {
      DivBracket(x, 0x10000, k - 1);
    }
    DivModUnique(x + h, TWO32, 0, x + h);
    DivBracket(x + h, 0x10000, k);
  }

  /** For 16-bit intensities MulIntens is round(a*b/65535), without any uint32 overflow. */
  lemma MulIntensRounds(a: U32, b: U32)
    requires a <= 65535 && b <= 65535
    ensures a * b + 0x8000 < TWO32
    ensures MulIntens(a, b) == (a * b + 32767) / 65535
    ensures -32767 <= a * b - 65535 * MulIntens(a, b) <= 32767
  {
    ProductBound(a, b, 65535, 65535);
    MulIntensQuotient(a, b, a * b);
  }

  lemma MulIntensQuotient(a: U32, b: U32, p: int)
    requires p == a * b && 0 <= p <= 0xFFFE_0001
    ensures MulIntens(a, b) == (p + 32767) / 65535
    ensures -32767 <= p - 65535 * MulIntens(a, b) <= 32767
  {
    var x := p + 0x8000;
    ShiftRound(x);
    MulIntensNoWrap(a, b, x);
  }

  /** Below 2^32 the first uint32 truncation in MulIntens does nothing. */
  lemma MulIntensNoWrap(a: U32, b: U32, x: int)
    requires x == a * b + 0x8000 && x < TWO32
    ensures MulIntens(a, b) == ((x + x / 0x10000) % TWO32) / 0x10000
  {
    DivModUnique(x, TWO32, 0, x);
  }

  /** The nearest integer to p/65535 is unique, and MulIntens is it. */
  lemma NearestUnique(p: int, k: int)
    requires p >= 0 && -32767 <= p - 65535 * k <= 32767
    ensures k == (p + 32767) / 65535
  {
    DivBracket(p + 32767, 65535, k);
  }

  lemma MulIntensUnit(a: U32)
    requires a <= 65535
    ensures MulIntens(a, 65535) == a && MulIntens(65535, a) == a
    ensures MulIntens(a, 0) == 0 && MulIntens(0, a) == 0
  {
    MulIntensRounds(a, 65535);
    MulIntensRounds(65535, a);
    NearestUnique(a * 65535, a);
    MulIntensRounds(a, 0);
    MulIntensRounds(0, a);
  }

  /** Scaling by an intensity never increases a value. */
  lemma MulIntensBelow(a: U32, b: U32)
    requires a <= 65535 && b <= 65535
    ensures MulIntens(a, b) <= a && MulIntens(a, b) <= b
  {
    MulIntensRounds(a, b);
    ProductBound(a, b, a, 65535);
    ProductBound(a, b, 65535, b);
  }

  lemma MulSubDistrib(x: int, y: int, z: int)
    ensures (x - y) * z == x * z - y * z
  {
  }

  /** Scaling by 1 - a and by a splits b exactly: MulIntens(65535-a, b) == b - MulIntens(a, b). */
  lemma MulIntensComplement(a: U32, b: U32)
    requires a <= 65535 && b <= 65535
    ensures MulIntens(65535 - a, b) == b - MulIntens(a, b)
  {
    var c: U32 := 65535 - a;
    MulIntensRounds(a, b);
    MulIntensRounds(c, b);
    var r := MulIntens(a, b);
    MulSubDistrib(65535, a, b);
    NearestUnique(c * b, b - r);
  }

  lemma MulIntensMonotone(a: U32, b: U32, c: U32)
    requires a <= 65535 && b <= c <= 65535
    ensures MulIntens(a, b) <= MulIntens(a, c)
  {
    MulIntensRounds(a, b);
    MulIntensRounds(a, c);
    MulMonotone(a, b, c);
    DivMonotone(a * b + 32767, a * c + 32767, 65535);
  }

  lemma DivMonotone(n1: int, n2: int, d: int)
    requires d > 0 && n1 <= n2
    ensures n1 / d <= n2 / d
  {
    var q1, q2 := n1 / d, n2 / d;
    assert n1 == d * q1 + n1 % d;
    assert n2 == d * q2 + n2 % d;
    if q1 > q2 {
      MulMonotone(d, q2 + 1, q1);
    }
  }

  /** A positive factor can be cancelled from both sides of an inequality. */
  lemma MulCancelLe(m: int, x: int, y: int)
    requires m > 0 && m * x <= m * y
    ensures x <= y
  {
    if x > y {
      MulMonotone(m, y + 1, x);
    }
  }

  /** Scaling by A/B or by C/D before flooring agrees when the two ratios are equal. */
  lemma DivRescale(n: nat, A: nat, B: nat, C: nat, D: nat)
    requires B > 0 && D > 0 && A * D == B * C
    ensures (n * A) / B == (n * C) / D
  {
    var q := (n * A) / B;
    var r := (n * A) % B;
    assert n * A == B * q + r;
    assert (n * A) * D == B * (n * C);
    assert (n * A) * D == B * (D * q) + r * D;
    MulMonotone(D, 0, r);
    MulMonotone(D, r, B - 1);
    MulCancelLe(B, D * q, n * C);
    assert B * (n * C) < B * (D * (q + 1));
    if n * C >= D * (q + 1) {
      MulMonotone(B, D * (q + 1), n * C);
    }
    DivBracket(n * C, D, q);
  }

  lemma MulIntensCommutes(a: U32, b: U32)
    ensures MulIntens(a, b) == MulIntens(b, a)
  {
    assert a * b == b * a;
  }

  // ---------------------------------------------------------------------
  // MulShift16 (lib_ktg/ktg/helpers.h:84-88): the product is taken in 64
  // bits (no overflow for 32-bit inputs); the shifted value is returned as
  // a 32-bit int.

  function MulShift16(a: I32, b: I32): I32 {
    ToInt32((a * b + 0x8000) / 0x10000)
  }

  lemma AbsProductBound(a: int, b: int, ma: int, mb: int)
    requires -ma <= a <= ma && -mb <= b <= mb
    ensures -(ma * mb) <= a * b <= ma * mb
  {
    var na: nat := if a < 0 then -a else a;
    var nb: nat := if b < 0 then -b else b;
    ProductBound(na, nb, ma, mb);
    assert a * b == na * nb || a * b == -(na * nb);
  }

  /** round-half-up of a*b/65536, and the int64 intermediate never overflows. */
  lemma MulShift16Rounds(a: I32, b: I32)
    requires -TWO31 <= (a * b + 0x8000) / 0x10000 < TWO31
    ensures -0x8000_0000_0000_0000 <= a * b + 0x8000 < 0x8000_0000_0000_0000
    ensures MulShift16(a, b) == (a * b + 0x8000) / 0x10000
    ensures -0x8000 <= a * b - 0x10000 * MulShift16(a, b) < 0x8000
  {
    AbsProductBound(a, b, TWO31, TWO31);
    var n := a * b + 0x8000;
    var q := n / 0x10000;
    assert n == 0x10000 * q + n % 0x10000;
  }

  /** 1.0 (65536) and 0.0 in 16.16 fixed point act as identity and zero. */
  lemma MulShift16Unit(v: I32)
    requires 0 <= v <= 65535
    ensures MulShift16(0x10000, v) == v && MulShift16(0, v) == 0
  {
    DivBracket(0x10000 * v + 0x8000, 0x10000, v);
    DivBracket(0x8000, 0x10000, 0);
  }

  /** A weight in [-127, 127] (16.16) times a 16-bit channel stays within 127*65535. */
  lemma MulShift16Bounded(w: I32, v: I32)
    requires -127 * 0x10000 <= w <= 127 * 0x10000 && 0 <= v <= 65535
    ensures -127 * 65535 <= MulShift16(w, v) <= 127 * 65535
  {
    AbsProductBound(w, v, 127 * 0x10000, 65535);
    var n := w * v + 0x8000;
    var q := n / 0x10000;
    assert n == 0x10000 * q + n % 0x10000;
    assert -127 * 65535 <= q <= 127 * 65535;
  }

  // ---------------------------------------------------------------------
  // UMulShift8 (lib_ktg/ktg/helpers.h:90-94): 64-bit product, returned as uint32.

  function UMulShift8(a: U32, b: U32): U32 {
    ((a * b + 0x80) / 0x100) % TWO32
  }

  /** round-half-up of a*b/256 in 64 bits; exact whenever the quotient fits in 32 bits. */
  lemma UMulShift8Rounds(a: U32, b: U32)
    requires (a * b + 0x80) / 0x100 < TWO32
    ensures a * b + 0x80 < 0x1_0000_0000_0000_0000
    ensures UMulShift8(a, b) == (a * b + 0x80) / 0x100
    ensures -0x80 <= a * b - 0x100 * UMulShift8(a, b) < 0x80
  {
    ProductBound(a, b, TWO32 - 1, TWO32 - 1);
    var q := (a * b + 0x80) / 0x100;
    assert a * b + 0x80 == 0x100 * q + (a * b + 0x80) % 0x100;
  }

  // ---------------------------------------------------------------------
  // Lerp (lib_ktg/ktg/helpers.h:96-101): `a + ((t * (b - a)) >> 16)`; the
  // arithmetic shift of a negative product rounds toward minus infinity,
  // as Dafny's division by a positive divisor does.

  function Lerp(t: int, a: int, b: int): int {
    a + (t * (b - a)) / 0x10000
  }

  /** For t in 0..65536 the result runs from a (t = 0) to b (t = 65536) and stays between them. */
  lemma LerpBetween(t: int, a: int, b: int)
    requires 0 <= t <= 0x10000
    ensures Lerp(0, a, b) == a && Lerp(0x10000, a, b) == b
    ensures a <= b ==> a <= Lerp(t, a, b) <= b
    ensures b <= a ==> b <= Lerp(t, a, b) <= a
  {
    var d := b - a;
    var q := (t * d) / 0x10000;
    assert t * d == 0x10000 * q + (t * d) % 0x10000;
    if d >= 0 {
      ProductBound(t, d, 0x10000, d);
      assert 0 <= t * d;
    } else {
      ProductBound(t, -d, 0x10000, -d);
      assert t * d == -(t * (-d));
    }
    DivBracket(0x10000 * d, 0x10000, d);
  }

  /** Lerp as the C++ code evaluates it: `t * (b - a)` in 32-bit two's complement, then
      stored into a uint16_t. */
  function LerpAsStored(t: int, a: int, b: int): int {
    Trunc16(a + ToInt32(t * (b - a)) / 0x10000)
  }

  /** The int32 overflow of `t * (b - a)` (possible once t >= 32768) is cancelled by the
      16-bit store: for 16-bit endpoints the stored value is the exact Lerp. */
  lemma LerpWrapHarmless(t: int, a: int, b: int)
    requires 0 <= t <= 0x10000 && 0 <= a <= 65535 && 0 <= b <= 65535
    ensures LerpAsStored(t, a, b) == Lerp(t, a, b)
  {
    LerpBetween(t, a, b);
    var p := t * (b - a);
    var w := ToInt32(p);
    var j := (p - w) / TWO32;
    assert p - w == TWO32 * j;
    assert w == p - TWO32 * j;
    var q := p / 0x10000;
    assert p == 0x10000 * q + p % 0x10000;
    assert w == 0x10000 * (q - 0x10000 * j) + p % 0x10000;
    DivBracket(w, 0x10000, q - 0x10000 * j);
    var v := a + w / 0x10000;
    assert v == Lerp(t, a, b) - TWO16 * j;
    assert 0 <= Lerp(t, a, b) < TWO16;
    DivModUnique(v, TWO16, -j, Lerp(t, a, b));
  }
}
