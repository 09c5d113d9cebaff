// The texture object and its sampling helpers (lib_ktg/ktg/gentexture.cpp,
// "Texture"). Texture coordinates are 1.7.24 fixed point: 1 << 24 spans
// the whole texture once, so a texel of a texture 2^s pixels wide is
// 2^(24 - s) units wide and its centre lies 2^(23 - s) units in.
module Textures {
  import opened Helpers
  import opened Pixels

  /** Largest resolution for which `1 << (24 - 1 - ShiftX)` has a non-negative shift count. */
  const MaxRes: int := 0x80_0000

  // ---------------------------------------------------------------------
  // Coordinate arithmetic shared by the samplers. Shifts of non-negative
  // values are divisions and multiplications by powers of two; `& 0xffffff`
  // on a two's-complement int is the Euclidean remainder modulo 2^24.

  /** Geometry of a texture 2^shift texels wide in 1.7.24 coordinates. */
  lemma TexelGeometry(shift: nat)
    requires shift <= 23
    ensures Pow2(24 - shift) * Pow2(shift) == TWO24
    ensures Pow2(24 - shift) == 2 * Pow2(23 - shift)
    ensures Pow2(shift + 8) * Pow2(24 - shift) == TWO32
    ensures Pow2(shift) <= MaxRes && Pow2(23 - shift) <= MaxRes
  {
    Pow2Values();
    Pow2Add(24 - shift, shift);
    Pow2Add(shift + 8, 24 - shift);
    Pow2Monotone(shift, 23);
    Pow2Monotone(23 - shift, 23);
  }

  /** `if (wrapMode & bit) c = clamp(c, minC, 0x1000000 - minC)` */
  function ClampIf(clampIt: bool, c: int, minC: int): int {
    if clampIt then Clamp(c, minC, TWO24 - minC) else c
  }

  /** `c >> (24 - shift)`: the texel holding coordinate c. */
  function TexelOf(c: int, shift: nat): int
    requires shift <= 24
  {
    c / Pow2(24 - shift)
  }

  /** `(c + 1) & (res - 1)`: the next texel, wrapping at the edge. */
  function NextTexel(c: int, shift: nat): int
    requires shift <= 23
  {
    And32(c + 1, Pow2(shift) - 1)
  }

  /** `uint32_t(c << (shift + 8)) >> 16`: the position inside the texel in 16-bit fixed point. */
  function Frac16(c: int, shift: nat): int
    requires shift <= 23
  {
    ((c * Pow2(shift + 8)) % TWO32) / TWO16
  }

  // Each fact below is proved once over plain integers (texel width w,
  // resolution res, half texel m, with w * res == 2^24) and then read back
  // for the powers of two a given shift produces.

  lemma TexelInRangeW(c: int, w: int, res: int)
    requires w > 0 && res > 0 && w * res == TWO24 && 0 <= c < TWO24
    ensures 0 <= c / w < res
  {
    DivLess(c, w, res);
    DivMonotone(0, c, w);
  }

  lemma TexelInRange(c: int, shift: nat)
    requires 0 <= c < TWO24 && shift <= 23
    ensures 0 <= TexelOf(c, shift) < Pow2(shift)
  {
    TexelGeometry(shift);
    TexelInRangeW(c, Pow2(24 - shift), Pow2(shift));
  }

  lemma TexelCentreW(i: int, w: int, m: int, res: int)
    requires m > 0 && w == 2 * m && w * res == TWO24 && 0 <= i < res
    ensures 0 <= (2 * i + 1) * m < TWO24
    ensures (2 * i + 1) * m / w == i && (2 * i + 1) * m % w == m
  {
    var c := (2 * i + 1) * m;
    assert c == w * i + m;
    DivModUnique(c, w, i, m);
    MulMonotone(w, i, res - 1);
  }

  /** The centre of texel i, (2i + 1) * 2^(23 - shift), lies inside texel i, half a texel in. */
  lemma TexelCentre(i: int, shift: nat)
    requires shift <= 23 && 0 <= i < Pow2(shift)
    ensures 0 <= (2 * i + 1) * Pow2(23 - shift) < TWO24
    ensures TexelOf((2 * i + 1) * Pow2(23 - shift), shift) == i
    ensures (2 * i + 1) * Pow2(23 - shift) % Pow2(24 - shift) == Pow2(23 - shift)
  {
    TexelGeometry(shift);
    TexelCentreW(i, Pow2(24 - shift), Pow2(23 - shift), Pow2(shift));
  }

  lemma ModBelow(n: int, d: int)
    requires 0 <= n < d
    ensures n % d == n
  {
    DivModUnique(n, d, 0, n);
  }

  /** The next texel is (c + 1) mod res: the mask works because res is a power of two. */
  lemma NextTexelWraps(c: int, shift: nat)
    requires shift <= 23 && 0 <= c < Pow2(shift)
    ensures NextTexel(c, shift) == (c + 1) % Pow2(shift)
    ensures 0 <= NextTexel(c, shift) < Pow2(shift)
    ensures c + 1 < Pow2(shift) ==> NextTexel(c, shift) == c + 1
    ensures c + 1 == Pow2(shift) ==> NextTexel(c, shift) == 0
  {
    var res := Pow2(shift);
    TexelGeometry(shift);
    assert res <= MaxRes;
    ModBelow(c + 1, TWO32);
    ModBelow(res - 1, TWO32);
    assert NextTexel(c, shift) == BitAnd(c + 1, res - 1);
    BitAndLowMask(c + 1, shift);
    if c + 1 < res {
      ModBelow(c + 1, res);
    } else {
      DivModUnique(c + 1, res, 1, 0);
    }
  }

  lemma FracOfW(c: int, w: int, res: int, k: int)
    requires w > 0 && res > 0 && k > 0 && w * res == TWO24 && k * w == TWO32 && 0 <= c < TWO24
    ensures ((c * k) % TWO32) / TWO16 == (c % w) * TWO16 / w
    ensures 0 <= (c % w) * TWO16 / w < TWO16
    ensures c % w == 0 ==> (c % w) * TWO16 / w == 0
  {
    var q, rem := c / w, c % w;
    assert c == w * q + rem;
    assert c * k == q * (k * w) + rem * k;
    MulMonotone(k, rem, w - 1);
    assert rem * k < TWO32;
    DivModUnique(c * k, TWO32, q, rem * k);
    DivRescale(rem, k, TWO16, TWO16, w);
    MulMonotone(TWO16, rem, w - 1);
    DivLess(rem * TWO16, w, TWO16);
  }

  /** The 16-bit fraction is floor(65536 * (c mod w) / w) for the texel width w: it stays
      below 65536, and is 0 on texel boundaries. */
  lemma FracOf(c: int, shift: nat)
    requires 0 <= c < TWO24 && shift <= 23
    ensures Frac16(c, shift) == (c % Pow2(24 - shift)) * TWO16 / Pow2(24 - shift)
    ensures 0 <= Frac16(c, shift) < TWO16
    ensures c % Pow2(24 - shift) == 0 ==> Frac16(c, shift) == 0
  {
    TexelGeometry(shift);
    FracOfW(c, Pow2(24 - shift), Pow2(shift), Pow2(shift + 8));
  }

  /** Linear index of texel (ix, iy): `(iy << ShiftX) + ix`. */
  lemma IndexInBounds(ix: int, iy: int, xres: int, yres: int)
    requires 0 <= ix < xres && 0 <= iy < yres
    ensures 0 <= iy * xres + ix < xres * yres
  {
    MulMonotone(xres, iy, yres - 1);
  }

  // ---------------------------------------------------------------------
  // Nearest, bilinear and gradient coordinates (gentexture.cpp:196-255)

  /** SampleNearest along one axis: clamp if asked, wrap into [0, 2^24), take the texel. */
  function NearestTexel(c: int, clampIt: bool, minC: int, shift: nat): (i: int)
    requires shift <= 23
    ensures 0 <= i < Pow2(shift)
  {
    TexelInRange(ClampIf(clampIt, c, minC) % TWO24, shift);
    TexelOf(ClampIf(clampIt, c, minC) % TWO24, shift)
  }

  /** SampleBilinear along one axis: the coordinate moved back half a texel and wrapped. */
  function BilinearBase(c: int, clampIt: bool, minC: int): (b: int)
    ensures 0 <= b < TWO24
  {
    (ClampIf(clampIt, c, minC) - minC) % TWO24
  }

  /** SampleGradient: clamp to [0, 2^24], then `x -= x >> ShiftX` so that 1.0 falls in the last texel. */
  function GradientBase(c: int, shift: nat): (b: int)
    requires shift <= 23
    ensures 0 <= b < TWO24
    ensures c <= 0 ==> b == 0
    ensures c >= TWO24 ==> b == TWO24 - Pow2(24 - shift)
  {
    var x := Clamp(c, 0, TWO24);
    GradientBaseBelow(x, shift);
    DivModUnique(0, Pow2(shift), 0, 0);
    x - x / Pow2(shift)
  }

  /** Bits of a wrap/filter mode: ClampU = 1, ClampV = 2, FilterBilinear = 4 (`mode & bit`). */
  predicate ClampsU(mode: int) { mode % 2 == 1 }
  predicate ClampsV(mode: int) { (mode / 2) % 2 == 1 }
  predicate FiltersBilinear(mode: int) { (mode / 4) % 2 == 1 }

  /** The two texels a linear filter blends along one axis and the weight of the second. */
  datatype Tap = Tap(i0: int, i1: int, f: int)

  /** `x0 = x >> (24 - shift); x1 = (x0 + 1) & (res - 1); fx = uint32_t(x << (shift + 8)) >> 16`
      on a coordinate already in [0, 2^24): neighbouring texels, and a weight below 1.0. */
  function TapAt(c: int, shift: nat): (t: Tap)
    requires 0 <= c < TWO24 && shift <= 23
    ensures 0 <= t.i0 < Pow2(shift) && 0 <= t.i1 < Pow2(shift)
    ensures t.i1 == if t.i0 + 1 < Pow2(shift) then t.i0 + 1 else 0
    ensures 0 <= t.f < TWO16
  {
    TexelInRange(c, shift);
    NextTexelWraps(TexelOf(c, shift), shift);
    FracOf(c, shift);
    Tap(TexelOf(c, shift), NextTexel(TexelOf(c, shift), shift), Frac16(c, shift))
  }

  /** SampleBilinear along one axis. */
  function BilinearTap(c: int, clampIt: bool, minC: int, shift: nat): Tap
    requires shift <= 23
  {
    TapAt(BilinearBase(c, clampIt, minC), shift)
  }

  /** SampleGradient's one axis. */
  function GradientTap(c: int, shift: nat): Tap
    requires shift <= 23
  {
    TapAt(GradientBase(c, shift), shift)
  }

  /** The centre of texel i, (2i + 1) * MinX. */
  function Centre(i: int, shift: nat): int
    requires shift <= 23
  {
    (2 * i + 1) * Pow2(23 - shift)
  }

  lemma CentreInsideW(i: int, w: int, m: int, res: int)
    requires m > 0 && w == 2 * m && w * res == TWO24 && 0 <= i < res
    ensures m <= (2 * i + 1) * m <= TWO24 - m
    ensures (2 * (res - 1) + 1) * m == TWO24 - m
    ensures (2 * i + 1) * m - m == i * w
  {
    MulMonotone(m, 1, 2 * i + 1);
    MulMonotone(w, i + 1, res);
  }

  /** A texel centre lies between the clamp limits MinX and 2^24 - MinX; the last centre is the
      upper limit itself. */
  lemma CentreInside(i: int, shift: nat)
    requires shift <= 23 && 0 <= i < Pow2(shift)
    ensures Pow2(23 - shift) <= Centre(i, shift) <= TWO24 - Pow2(23 - shift)
    ensures Centre(Pow2(shift) - 1, shift) == TWO24 - Pow2(23 - shift)
    ensures Centre(i, shift) - Pow2(23 - shift) == i * Pow2(24 - shift)
  {
    TexelGeometry(shift);
    CentreInsideW(i, Pow2(24 - shift), Pow2(23 - shift), Pow2(shift));
  }

  /** The first texel centre is MinX itself and the last is 2^24 - MinX. */
  lemma EdgeCentres(shift: nat)
    requires shift <= 23
    ensures Centre(0, shift) == Pow2(23 - shift)
    ensures Centre(Pow2(shift) - 1, shift) == TWO24 - Pow2(23 - shift)
    ensures 0 < Pow2(23 - shift) <= TWO24 - Pow2(23 - shift)
  {
    CentreInside(0, shift);
    CentreInside(Pow2(shift) - 1, shift);
  }

  /** Coordinates are periodic with period 2^24 once `& 0xffffff` has been applied. */
  lemma ModPeriod(c: int, k: int)
    ensures (c + k * TWO24) % TWO24 == c % TWO24
  {
    DivModUnique(c + k * TWO24, TWO24, c / TWO24 + k, c % TWO24);
  }

  /** Nearest sampling at a texel centre picks that texel, clamped or not. */
  lemma NearestAtCentre(i: int, shift: nat, clampIt: bool)
    requires shift <= 23 && 0 <= i < Pow2(shift)
    ensures NearestTexel(Centre(i, shift), clampIt, Pow2(23 - shift), shift) == i
  {
    CentreInside(i, shift);
    TexelCentre(i, shift);
    ModBelow(Centre(i, shift), TWO24);
  }

  lemma TexelStartW(i: int, w: int, res: int)
    requires w > 0 && w * res == TWO24 && 0 <= i < res
    ensures 0 <= i * w < TWO24 && (i * w) % TWO24 == i * w
    ensures (i * w) / w == i && (i * w) % w == 0
  {
    MulMonotone(w, i, res - 1);
    ModBelow(i * w, TWO24);
    DivModUnique(i * w, w, i, 0);
  }

  /** The first coordinate of texel i, i * 2^(24 - shift), lies in texel i at offset 0. */
  lemma TexelStart(i: int, shift: nat)
    requires shift <= 23 && 0 <= i < Pow2(shift)
    ensures 0 <= i * Pow2(24 - shift) < TWO24 && (i * Pow2(24 - shift)) % TWO24 == i * Pow2(24 - shift)
    ensures TapAt(i * Pow2(24 - shift), shift).i0 == i && TapAt(i * Pow2(24 - shift), shift).f == 0
  {
    TexelGeometry(shift);
    TexelStartW(i, Pow2(24 - shift), Pow2(shift));
    FracOf(i * Pow2(24 - shift), shift);
  }

  /** Bilinear sampling at a texel centre starts at that texel with weight 0 for the next one. */
  lemma BilinearAtCentre(i: int, shift: nat, clampIt: bool)
    requires shift <= 23 && 0 <= i < Pow2(shift)
    ensures BilinearTap(Centre(i, shift), clampIt, Pow2(23 - shift), shift).i0 == i
    ensures BilinearTap(Centre(i, shift), clampIt, Pow2(23 - shift), shift).f == 0
  {
    CentreInside(i, shift);
    TexelStart(i, shift);
    assert BilinearBase(Centre(i, shift), clampIt, Pow2(23 - shift)) == i * Pow2(24 - shift);
  }

  lemma LastStartW(w: int, res: int)
    requires w * res == TWO24
    ensures TWO24 - w == (res - 1) * w
  {
    MulSubDistrib(res, 1, w);
  }

  /** At or below 0 the gradient is texel 0, with weight 0 for the next one. */
  lemma GradientStart(c: int, shift: nat)
    requires shift <= 23 && c <= 0
    ensures GradientTap(c, shift).i0 == 0 && GradientTap(c, shift).f == 0
  {
    TexelStart(0, shift);
  }

  /** The last texel starts one texel width below 1.0. */
  lemma LastTexelStart(shift: nat)
    requires shift <= 23
    ensures 0 <= TWO24 - Pow2(24 - shift) < TWO24
    ensures TapAt(TWO24 - Pow2(24 - shift), shift).i0 == Pow2(shift) - 1
    ensures TapAt(TWO24 - Pow2(24 - shift), shift).f == 0
  {
    var w, last := Pow2(24 - shift), Pow2(shift) - 1;
    TexelGeometry(shift);
    LastStartW(w, Pow2(shift));
    assert TWO24 - w == last * w;
    TexelStart(last, shift);
    assert TapAt(last * w, shift).i0 == last && TapAt(last * w, shift).f == 0;
  }

  /** At or above 1.0 the gradient is the last texel, with weight 0 for the next one. */
  lemma GradientEnd(c: int, shift: nat)
    requires shift <= 23 && c >= TWO24
    ensures GradientTap(c, shift).i0 == Pow2(shift) - 1 && GradientTap(c, shift).f == 0
  {
    var g := GradientBase(c, shift);
    var e := TWO24 - Pow2(24 - shift);
    assert g == e;
    LastTexelStart(shift);
    assert TapAt(e, shift).i0 == Pow2(shift) - 1;
    assert GradientTap(c, shift) == TapAt(g, shift);
  }

  /** Without clamping each axis repeats every 2^24 (one whole texture). */
  lemma AxisPeriodic(c: int, k: int, minC: int, shift: nat)
    requires shift <= 23
    ensures NearestTexel(c + k * TWO24, false, minC, shift) == NearestTexel(c, false, minC, shift)
    ensures BilinearTap(c + k * TWO24, false, minC, shift) == BilinearTap(c, false, minC, shift)
  {
    var c2 := c + k * TWO24;
    ModPeriod(c, k);
    assert ClampIf(false, c2, minC) % TWO24 == ClampIf(false, c, minC) % TWO24;
    ModPeriod(c - minC, k);
    assert c2 - minC == (c - minC) + k * TWO24;
    assert BilinearBase(c2, false, minC) == BilinearBase(c, false, minC);
  }

  /** Two coordinates that clamp to the same value sample the same texels. */
  lemma SameClamp(c: int, d: int, clampIt: bool, minC: int, shift: nat)
    requires shift <= 23 && ClampIf(clampIt, c, minC) == ClampIf(clampIt, d, minC)
    ensures NearestTexel(c, clampIt, minC, shift) == NearestTexel(d, clampIt, minC, shift)
    ensures BilinearTap(c, clampIt, minC, shift) == BilinearTap(d, clampIt, minC, shift)
  {
    assert BilinearBase(c, clampIt, minC) == BilinearBase(d, clampIt, minC);
  }

  /** With clamping, an axis reads every coordinate at or below MinX as MinX and every
      coordinate at or above 2^24 - MinX as 2^24 - MinX: the centres of the first and last texel
      (EdgeCentres). */
  lemma AxisClamps(c: int, m: int, shift: nat)
    requires shift <= 23 && 0 < m <= TWO24 - m
    ensures c <= m ==>
      NearestTexel(c, true, m, shift) == NearestTexel(m, true, m, shift) &&
      BilinearTap(c, true, m, shift) == BilinearTap(m, true, m, shift)
    ensures c >= TWO24 - m ==>
      NearestTexel(c, true, m, shift) == NearestTexel(TWO24 - m, true, m, shift) &&
      BilinearTap(c, true, m, shift) == BilinearTap(TWO24 - m, true, m, shift)
  {
    if c <= m {
      SameClamp(c, m, true, m, shift);
    }
    if c >= TWO24 - m {
      SameClamp(c, TWO24 - m, true, m, shift);
    }
  }

  lemma GradientBaseBelowW(x: int, w: int, res: int)
    requires 0 <= x <= TWO24 && w > 0 && res > 0 && w * res == TWO24
    ensures 0 <= x - x / res < TWO24
    ensures x == TWO24 ==> x - x / res == TWO24 - w
  {
    var q := x / res;
    assert x == res * q + x % res;
    DivMonotone(0, x, res);
    MulMonotone(q, 1, res);
    if x == TWO24 {
      DivModUnique(x, res, w, 0);
    }
  }

  lemma GradientBaseBelow(x: int, shift: nat)
    requires 0 <= x <= TWO24 && shift <= 23
    ensures 0 <= x - x / Pow2(shift) < TWO24
    ensures x == TWO24 ==> x - x / Pow2(shift) == TWO24 - Pow2(24 - shift)
  {
    TexelGeometry(shift);
    GradientBaseBelowW(x, Pow2(24 - shift), Pow2(shift));
  }

  // ---------------------------------------------------------------------
  // Sizes (gentexture.cpp:143-168)

  /** What Init asserts of a resolution, plus the bound under which UpdateSize's shift
      count `24 - 1 - ShiftX` stays non-negative. */
  predicate ResOk(res: int) {
    0 <= res <= MaxRes && IsPowerOf2(res)
  }

  /** A resolution pair Init accepts; NPixels = xres * yres is an int. */
  predicate DimsOk(xres: int, yres: int) {
    ResOk(xres) && ResOk(yres) && xres * yres < TWO31
  }

  /** Resolution, its log2 and the clamp-to-edge minimum, half a texel `(1 << 24) / (2 * res)`,
      agree as UpdateSize leaves them. */
  ghost predicate AxisOk(res: int, shift: int, minC: int) {
    0 <= shift <= 23 && minC == TWO24 / (2 * Pow2(shift)) &&
    ((res == 0 && shift == 0) || res == Pow2(shift))
  }

  /** UpdateSize on one axis: the FloorLog2 of an accepted resolution gives consistent values. */
  lemma AxisFromLog(res: int, shift: nat)
    requires ResOk(res)
    requires res == 0 ==> shift == 0
    requires res >= 1 ==> Pow2(shift) <= res < Pow2(shift + 1)
    ensures shift <= 23 && AxisOk(res, shift, Pow2(23 - shift))
  {
    Pow2Values();
    IsPowerOf2Spec(res);
    if res > 0 {
      var k: nat :| res == Pow2(k);
      Pow2Log(k, shift);
      if k > 23 {
        Pow2Monotone(24, k);
      }
    }
    MinIsHalfTexel(shift);
  }

  /** Consistent axis values describe a resolution Init accepts. */
  lemma AxisResOk(res: int, shift: int, minC: int)
    requires AxisOk(res, shift, minC)
    ensures ResOk(res)
  {
    Pow2Values();
    if res != 0 {
      IsPowerOf2OfPow2(shift);
      Pow2Monotone(shift, 23);
    } else {
      assert IsPowerOf2(0) by { assert And32(0, -1) == 0; }
    }
  }

  /** The clamp minimum is half a texel: MinX == (1 << 24) / (2 * XRes), as documented. */
  lemma MinIsHalfTexel(shift: nat)
    requires shift <= 23
    ensures Pow2(23 - shift) == TWO24 / (2 * Pow2(shift))
  {
    TexelGeometry(shift);
    HalfTexelW(Pow2(23 - shift), Pow2(24 - shift), Pow2(shift));
  }

  /** The texel width `1 << (24 - shift)` is twice the clamp minimum. */
  lemma TexelWidth(shift: nat)
    requires shift <= 23
    ensures Pow2(24 - shift) == 2 * (TWO24 / (2 * Pow2(shift)))
  {
    TexelGeometry(shift);
    MinIsHalfTexel(shift);
  }

  /** `1 << (24 - shift)`, the width of one texel in 8.24 coordinates: twice the clamp minimum. */
  method TexelStep(res: int, shift: int, minC: int) returns (w: int)
    requires AxisOk(res, shift, minC)
    ensures w == 2 * minC
  {
    TexelWidth(shift);
    w := Pow2(24 - shift);
  }

  lemma HalfTexelW(m: int, w: int, res: int)
    requires m > 0 && res > 0 && w == 2 * m && w * res == TWO24
    ensures m == TWO24 / (2 * res)
  {
    assert m * (2 * res) == TWO24;
    DivModUnique(TWO24, 2 * res, m, 0);
  }

  ghost predicate SizeFields(xres: int, yres: int, npixels: int, shiftX: int, shiftY: int, minX: int, minY: int) {
    xres >= 0 && yres >= 0 && npixels == xres * yres && 0 <= npixels < TWO31 &&
    (npixels > 0 ==> xres > 0 && yres > 0) &&
    AxisOk(xres, shiftX, minX) && AxisOk(yres, shiftY, minY)
  }

  /** The body of UpdateSize: NPixels, ShiftX/ShiftY by FloorLog2, MinX/MinY as `1 << (24 - 1 - shift)`. */
  method SizeValues(xres: int, yres: int) returns (n: int, sx: int, sy: int, mx: int, my: int)
    requires DimsOk(xres, yres)
    ensures SizeFields(xres, yres, n, sx, sy, mx, my)
  {
    n := xres * yres;
    MulMonotone(xres, 0, yres);
    if xres == 0 || yres == 0 {
      assert n == 0;
    }
    var lx := FloorLog2(xres);
    var ly := FloorLog2(yres);
    AxisFromLog(xres, lx);
    AxisFromLog(yres, ly);
    sx, sy := lx, ly;
    mx, my := Pow2(23 - lx), Pow2(23 - ly);
  }

  /** `new Pixel[n]` followed by `memcpy` of the first n pixels of src. */
  method CopyPixels(src: array<Pixel>, n: int) returns (d: array<Pixel>)
    requires 0 <= n <= src.Length
    ensures fresh(d) && d[..] == src[..n]
  {
    d := new Pixel[n];
    var i := 0;
    while i < n
      invariant 0 <= i <= n
      invariant d[..i] == src[..i]
    {
      d[i] := src[i];
      i := i + 1;
    }
  }

  // ---------------------------------------------------------------------
  // The texture object (gentexture.cpp:96-193)

  class Texture {
    var Data: array<Pixel>
    var XRes: int
    var YRes: int
    var NPixels: int
    var ShiftX: int
    var ShiftY: int
    var MinX: int
    var MinY: int

    /** The fields UpdateSize derives from XRes and YRes hold their values. */
    ghost predicate SizeOk()
      reads this
    {
      SizeFields(XRes, YRes, NPixels, ShiftX, ShiftY, MinX, MinY)
    }

    ghost predicate Valid()
      reads this
    {
      SizeOk() && Data.Length == NPixels
    }

    /** Texture::UpdateSize */
    method UpdateSize()
      requires DimsOk(XRes, YRes)
      modifies this
      ensures SizeOk()
      ensures XRes == old(XRes) && YRes == old(YRes) && Data == old(Data)
    {
      NPixels, ShiftX, ShiftY, MinX, MinY := SizeValues(XRes, YRes);
    }

    /** Texture(): an empty 0 x 0 texture. */
    constructor Empty()
      ensures Valid() && XRes == 0 && YRes == 0 && fresh(Data)
    {
      Data := new Pixel[0];
      XRes := 0;
      YRes := 0;
      new;
      UpdateSize();
    }

    /** Texture(xres, yres) and __ctor(xres, yres): start empty, then Init. The pixels of a new
        texture are not initialised. */
    constructor (xres: int, yres: int)
      requires (xres != 0 || yres != 0) ==> DimsOk(xres, yres)
      ensures Valid() && XRes == xres && YRes == yres && fresh(Data)
    {
      Data := new Pixel[0];
      XRes := 0;
      YRes := 0;
      new;
      UpdateSize();
      Init(xres, yres);
    }

    /** Texture(const Texture&): same size, a fresh copy of the pixels. */
    constructor Copy(x: Texture)
      requires x.Valid()
      ensures Valid() && XRes == x.XRes && YRes == x.YRes
      ensures fresh(Data) && Data[..] == x.Data[..]
    {
      XRes := x.XRes;
      YRes := x.YRes;
      Data := new Pixel[0];
      new;
      AxisResOk(x.XRes, x.ShiftX, x.MinX);
      AxisResOk(x.YRes, x.ShiftY, x.MinY);
      UpdateSize();
      Data := CopyPixels(x.Data, NPixels);
    }

    /** Texture::Init: reallocates (leaving the pixels undefined) only when the size changes. */
    method Init(xres: int, yres: int)
      requires Valid()
      requires (XRes != xres || YRes != yres) ==> DimsOk(xres, yres)
      modifies this
      ensures Valid() && XRes == xres && YRes == yres
      ensures old(XRes) == xres && old(YRes) == yres ==> Data == old(Data)
      ensures old(XRes) != xres || old(YRes) != yres ==> fresh(Data)
    {
      if XRes != xres || YRes != yres {
        XRes := xres;
        YRes := yres;
        UpdateSize();
        Data := new Pixel[NPixels];
      }
    }

    /** Texture::Swap: exchanges every field with x. */
    method Swap(x: Texture)
      modifies this, x
      ensures Data == old(x.Data) && x.Data == old(Data)
      ensures XRes == old(x.XRes) && x.XRes == old(XRes)
      ensures YRes == old(x.YRes) && x.YRes == old(YRes)
      ensures NPixels == old(x.NPixels) && x.NPixels == old(NPixels)
      ensures ShiftX == old(x.ShiftX) && x.ShiftX == old(ShiftX)
      ensures ShiftY == old(x.ShiftY) && x.ShiftY == old(ShiftY)
      ensures MinX == old(x.MinX) && x.MinX == old(MinX)
      ensures MinY == old(x.MinY) && x.MinY == old(MinY)
      ensures old(Valid()) && old(x.Valid()) ==> Valid() && x.Valid()
    {
      var d := Data; Data := x.Data; x.Data := d;
      var t := XRes; XRes := x.XRes; x.XRes := t;
      t := YRes; YRes := x.YRes; x.YRes := t;
      t := NPixels; NPixels := x.NPixels; x.NPixels := t;
      t := ShiftX; ShiftX := x.ShiftX; x.ShiftX := t;
      t := ShiftY; ShiftY := x.ShiftY; x.ShiftY := t;
      t := MinX; MinX := x.MinX; x.MinX := t;
      t := MinY; MinY := x.MinY; x.MinY := t;
    }

    /** operator=: copy x into a temporary, then swap with it (safe when x is this texture). */
    method Assign(x: Texture)
      requires Valid() && x.Valid()
      modifies this
      ensures Valid() && XRes == old(x.XRes) && YRes == old(x.YRes)
      ensures fresh(Data) && Data[..] == old(x.Data[..])
    {
      var t := new Texture.Copy(x);
      Swap(t);
    }

    /** The texture as its read-only members (the samplers) see it. */
    function View(): (v: Image)
      reads this, Data
      ensures Valid() ==> v.Valid()
    {
      Image(Data[..], XRes, YRes, ShiftX, ShiftY, MinX, MinY)
    }

    /** Texture::SameSize */
    predicate SameSize(x: Texture)
      reads this, x
    {
      XRes == x.XRes && YRes == x.YRes
    }

    /** Two valid textures of the same size agree on every derived field, so a loop over
        NPixels of one stays inside the pixels of the other. */
    lemma SameSizeFields(x: Texture)
      requires Valid() && x.Valid()
      ensures SameSize(x) ==> NPixels == x.NPixels && Data.Length == x.Data.Length
      ensures SameSize(x) ==> ShiftX == x.ShiftX && ShiftY == x.ShiftY && MinX == x.MinX && MinY == x.MinY
    {
      if SameSize(x) {
        if XRes > 0 {
          Pow2Log(ShiftX, x.ShiftX);
        }
        if YRes > 0 {
          Pow2Log(ShiftY, x.ShiftY);
        }
      }
    }
  }

  // ---------------------------------------------------------------------
  // Sampling (gentexture.cpp:196-255). The Sample* members only read the texture, so they are
  // functions of its state: the pixels and the size fields as one value.

  datatype Image = Image(Data: seq<Pixel>, XRes: int, YRes: int, ShiftX: int, ShiftY: int, MinX: int, MinY: int)
  {
    ghost predicate Valid() {
      SizeFields(XRes, YRes, |Data|, ShiftX, ShiftY, MinX, MinY)
    }

    /** `(iy << ShiftX) + ix`: texel (ix, iy) is stored row by row. */
    function Index(ix: int, iy: int): (k: int)
      requires Valid() && 0 <= ix < XRes && 0 <= iy < YRes
      ensures 0 <= k < |Data|
      ensures k / XRes == iy && k % XRes == ix
    {
      IndexInBounds(ix, iy, XRes, YRes);
      DivModUnique(iy * XRes + ix, XRes, iy, ix);
      iy * Pow2(ShiftX) + ix
    }

    /** Texture::SampleNearest: the texel holding (x, y), after clamping or wrapping each axis. */
    function SampleNearest(x: int, y: int, wrapMode: int): Pixel
      requires Valid() && XRes > 0 && YRes > 0
    {
      var ix := NearestTexel(x, ClampsU(wrapMode), MinX, ShiftX);
      var iy := NearestTexel(y, ClampsV(wrapMode), MinY, ShiftY);
      Data[Index(ix, iy)]
    }

    /** Texture::SampleBilinear: a lerp along x in two rows, then a lerp along y. */
    function SampleBilinear(x: int, y: int, wrapMode: int): Pixel
      requires Valid() && XRes > 0 && YRes > 0
    {
      var tx := BilinearTap(x, ClampsU(wrapMode), MinX, ShiftX);
      var ty := BilinearTap(y, ClampsV(wrapMode), MinY, ShiftY);
      var t0 := Pixels.Lerp(tx.f, Data[Index(tx.i0, ty.i0)], Data[Index(tx.i1, ty.i0)]);
      var t1 := Pixels.Lerp(tx.f, Data[Index(tx.i0, ty.i1)], Data[Index(tx.i1, ty.i1)]);
      Pixels.Lerp(ty.f, t0, t1)
    }

    /** Texture::SampleFiltered: bit FilterBilinear of the mode picks the filter. */
    function SampleFiltered(x: int, y: int, filterMode: int): Pixel
      requires Valid() && XRes > 0 && YRes > 0
    {
      if FiltersBilinear(filterMode) then SampleBilinear(x, y, filterMode)
      else SampleNearest(x, y, filterMode)
    }

    /** Texture::SampleGradient: a lerp along the first row, clamped to [0, 1]. */
    function SampleGradient(x: int): Pixel
      requires Valid() && XRes > 0 && YRes > 0
    {
      MulMonotone(XRes, 1, YRes);
      var t := GradientTap(x, ShiftX);
      Pixels.Lerp(t.f, Data[t.i0], Data[t.i1])
    }

    /** Nearest sampling at the centre of texel (i, j), clamped or wrapped, returns that texel. */
    lemma SampleNearestAtCentre(i: int, j: int, mode: int)
      requires Valid() && 0 <= i < XRes && 0 <= j < YRes
      ensures SampleNearest(Centre(i, ShiftX), Centre(j, ShiftY), mode) == Data[Index(i, j)]
    {
      MinIsHalfTexel(ShiftX);
      MinIsHalfTexel(ShiftY);
      NearestAtCentre(i, ShiftX, ClampsU(mode));
      NearestAtCentre(j, ShiftY, ClampsV(mode));
    }

    /** Bilinear sampling at the centre of texel (i, j) gives that texel weight 1.0: the exact
        texel, as nearest sampling does. */
    lemma SampleBilinearAtCentre(i: int, j: int, mode: int)
      requires Valid() && 0 <= i < XRes && 0 <= j < YRes
      ensures SampleBilinear(Centre(i, ShiftX), Centre(j, ShiftY), mode) == Data[Index(i, j)]
    {
      MinIsHalfTexel(ShiftX);
      MinIsHalfTexel(ShiftY);
      BilinearAtCentre(i, ShiftX, ClampsU(mode));
      BilinearAtCentre(j, ShiftY, ClampsV(mode));
      var tx := BilinearTap(Centre(i, ShiftX), ClampsU(mode), MinX, ShiftX);
      var ty := BilinearTap(Centre(j, ShiftY), ClampsV(mode), MinY, ShiftY);
      var t0 := Pixels.Lerp(tx.f, Data[Index(tx.i0, ty.i0)], Data[Index(tx.i1, ty.i0)]);
      var t1 := Pixels.Lerp(tx.f, Data[Index(tx.i0, ty.i1)], Data[Index(tx.i1, ty.i1)]);
      LerpEndpoints(Data[Index(tx.i0, ty.i0)], Data[Index(tx.i1, ty.i0)]);
      LerpEndpoints(t0, t1);
    }

    /** Either filter at a texel centre returns that texel. */
    lemma SampleFilteredAtCentre(i: int, j: int, mode: int)
      requires Valid() && 0 <= i < XRes && 0 <= j < YRes
      ensures SampleFiltered(Centre(i, ShiftX), Centre(j, ShiftY), mode) == Data[Index(i, j)]
    {
      SampleNearestAtCentre(i, j, mode);
      SampleBilinearAtCentre(i, j, mode);
    }

    /** A wrapped axis repeats every 2^24, one whole texture. */
    lemma SampleWraps(x: int, y: int, mode: int, kx: int, ky: int)
      requires Valid() && XRes > 0 && YRes > 0
      ensures !ClampsU(mode) ==> SampleNearest(x + kx * TWO24, y, mode) == SampleNearest(x, y, mode)
      ensures !ClampsV(mode) ==> SampleNearest(x, y + ky * TWO24, mode) == SampleNearest(x, y, mode)
      ensures !ClampsU(mode) ==> SampleBilinear(x + kx * TWO24, y, mode) == SampleBilinear(x, y, mode)
      ensures !ClampsV(mode) ==> SampleBilinear(x, y + ky * TWO24, mode) == SampleBilinear(x, y, mode)
    {
      AxisPeriodic(x, kx, MinX, ShiftX);
      AxisPeriodic(y, ky, MinY, ShiftY);
    }

    /** A clamped u axis reads every x at or below MinX as MinX, and every x at or above
        2^24 - MinX as 2^24 - MinX. */
    lemma SampleClampsU(x: int, y: int, mode: int)
      requires Valid() && XRes > 0 && YRes > 0 && ClampsU(mode)
      ensures x <= MinX ==>
        SampleNearest(x, y, mode) == SampleNearest(MinX, y, mode) &&
        SampleBilinear(x, y, mode) == SampleBilinear(MinX, y, mode)
      ensures x >= TWO24 - MinX ==>
        SampleNearest(x, y, mode) == SampleNearest(TWO24 - MinX, y, mode) &&
        SampleBilinear(x, y, mode) == SampleBilinear(TWO24 - MinX, y, mode)
    {
      MinIsHalfTexel(ShiftX);
      MinIsHalfTexel(ShiftY);
      EdgeCentres(ShiftX);
      AxisClamps(x, MinX, ShiftX);
    }

    /** A clamped v axis reads every y at or below MinY as MinY, and every y at or above
        2^24 - MinY as 2^24 - MinY. */
    lemma SampleClampsV(x: int, y: int, mode: int)
      requires Valid() && XRes > 0 && YRes > 0 && ClampsV(mode)
      ensures y <= MinY ==>
        SampleNearest(x, y, mode) == SampleNearest(x, MinY, mode) &&
        SampleBilinear(x, y, mode) == SampleBilinear(x, MinY, mode)
      ensures y >= TWO24 - MinY ==>
        SampleNearest(x, y, mode) == SampleNearest(x, TWO24 - MinY, mode) &&
        SampleBilinear(x, y, mode) == SampleBilinear(x, TWO24 - MinY, mode)
    {
      MinIsHalfTexel(ShiftX);
      MinIsHalfTexel(ShiftY);
      EdgeCentres(ShiftY);
      AxisClamps(y, MinY, ShiftY);
    }

    /** Every channel of a bilinear sample lies within the range of the four texels it blends. */
    lemma SampleBilinearWithin(x: int, y: int, mode: int)
      requires Valid() && XRes > 0 && YRes > 0
      ensures var tx := BilinearTap(x, ClampsU(mode), MinX, ShiftX);
              var ty := BilinearTap(y, ClampsV(mode), MinY, ShiftY);
              var p := SampleBilinear(x, y, mode);
              var p00, p01 := Data[Index(tx.i0, ty.i0)], Data[Index(tx.i1, ty.i0)];
              var p10, p11 := Data[Index(tx.i0, ty.i1)], Data[Index(tx.i1, ty.i1)];
              Within4(p.r, p00.r, p01.r, p10.r, p11.r) && Within4(p.g, p00.g, p01.g, p10.g, p11.g) &&
              Within4(p.b, p00.b, p01.b, p10.b, p11.b) && Within4(p.a, p00.a, p01.a, p10.a, p11.a)
    {
      var tx := BilinearTap(x, ClampsU(mode), MinX, ShiftX);
      var ty := BilinearTap(y, ClampsV(mode), MinY, ShiftY);
      BilinearWithin(tx.f, ty.f, Data[Index(tx.i0, ty.i0)], Data[Index(tx.i1, ty.i0)],
                     Data[Index(tx.i0, ty.i1)], Data[Index(tx.i1, ty.i1)]);
    }

    /** Row 0 is stored first: (i, 0) is at index i. */
    lemma RowZero(i: int)
      requires Valid() && 0 <= i < XRes && YRes > 0
      ensures Index(i, 0) == i
    {
      var k := Index(i, 0);
      assert k == XRes * (k / XRes) + k % XRes;
    }

    /** At or below 0 the gradient is the first texel of row 0. */
    lemma SampleGradientStart(x: int)
      requires Valid() && XRes > 0 && YRes > 0 && x <= 0
      ensures SampleGradient(x) == Data[Index(0, 0)]
    {
      RowZero(0);
      MulMonotone(XRes, 1, YRes);
      var t := GradientTap(x, ShiftX);
      GradientStart(x, ShiftX);
      assert t.i0 == 0 && t.f == 0;
      LerpEndpoints(Data[t.i0], Data[t.i1]);
      assert SampleGradient(x) == Pixels.Lerp(0, Data[0], Data[t.i1]);
    }

    /** At or above 1.0 the gradient is the last texel of row 0 (`x -= x >> ShiftX`). */
    lemma SampleGradientEnd(x: int)
      requires Valid() && XRes > 0 && YRes > 0 && x >= TWO24
      ensures SampleGradient(x) == Data[Index(XRes - 1, 0)]
    {
      RowZero(XRes - 1);
      MulMonotone(XRes, 1, YRes);
      var t := GradientTap(x, ShiftX);
      GradientEnd(x, ShiftX);
      assert t.i0 == XRes - 1 && t.f == 0;
      LerpEndpoints(Data[t.i0], Data[t.i1]);
      assert SampleGradient(x) == Pixels.Lerp(0, Data[XRes - 1], Data[t.i1]);
    }

    /** Between the ends the gradient lies, channel by channel, between two neighbouring texels
        of row 0 (the last one's neighbour is the first). */
    lemma SampleGradientWithin(x: int)
      requires Valid() && XRes > 0 && YRes > 0
      ensures var t := GradientTap(x, ShiftX);
              var p, p0, p1 := SampleGradient(x), Data[Index(t.i0, 0)], Data[Index(t.i1, 0)];
              t.i1 == (if t.i0 + 1 < XRes then t.i0 + 1 else 0) &&
              ChannelBetween(p.r, p0.r, p1.r) && ChannelBetween(p.g, p0.g, p1.g) &&
              ChannelBetween(p.b, p0.b, p1.b) && ChannelBetween(p.a, p0.a, p1.a)
    {
      var t := GradientTap(x, ShiftX);
      RowZero(t.i0);
      RowZero(t.i1);
      LerpChannels(t.f, Data[t.i0], Data[t.i1]);
    }
  }
}
