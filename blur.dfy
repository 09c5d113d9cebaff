// Blur1DBuffer and Blur of lib_ops/gentexture/filters.cpp:214-391: a box filter with
// fractional end taps, run along rows and then along columns, `order` times per line.
// A line's output is stated as a closed-form window sum over the input line; the sliding
// accumulator of the source is proved to track it.
module Blur {
  import opened Helpers
  import opened Pixels
  import opened Textures

  // ---------------------------------------------------------------------
  // WrapCoord (filters.cpp:214-221)

  /** A line width Blur1DBuffer handles in the given mode: wrapping masks with width - 1,
      so it needs a power of two; clamping works for any width. */
  predicate WidthOk(width: int, mode: int) {
    1 <= width <= MaxRes && (mode == 0 ==> IsPowerOf2(width))
  }

  /** The pixel of a line of the given width that coordinate x stands for: wrap mode (0) takes
      x modulo the width, negative x included; clamp mode repeats the end pixels. */
  function Wrapped(x: int, width: int, mode: int): (r: int)
    requires width >= 1
    ensures 0 <= r < width
  {
    if mode == 0 then x % width else Clamp(x, 0, width - 1)
  }

  /** WrapCoord: mode 0 masks, `x & (width - 1)`; any other mode clamps to [0, width - 1]. */
  function WrapCoord(x: int, width: int, mode: int): (r: int)
    requires WidthOk(width, mode)
    ensures r == Wrapped(x, width, mode)
  {
    if mode == 0 then
      And32LowMask(x, width);
      And32(x, width - 1)
    else
      Clamp(x, 0, width - 1)
  }

  // ---------------------------------------------------------------------
  // The kernel of Blur1DBuffer (filters.cpp:223-234)

  /** A kernel size Blur1DBuffer accepts: half the edge length in 26.6 fixed point, wider than
      one pixel as asserted. */
  predicate KernelOk(sizeFixed: int) {
    32 < sizeFixed
  }

  /** The weight of the two partly covered end taps, out of 64. */
  function Frac(sizeFixed: int): int
    requires KernelOk(sizeFixed)
  {
    (sizeFixed - 32) % 64
  }

  /** `(sizeFixed - 32) & 63` as Blur1DBuffer computes it is Frac. */
  lemma FracMask(sizeFixed: int)
    requires KernelOk(sizeFixed)
    ensures And32(sizeFixed - 32, 63) == Frac(sizeFixed)
  {
    Pow2Values();
    assert 64 == Pow2(6) by {
      assert Pow2(8) == 2 * Pow2(7) && Pow2(7) == 2 * Pow2(6);
    }
    IsPowerOf2OfPow2(6);
    And32LowMask(sizeFixed - 32, 64);
  }

  /** `(sizeFixed + 32) >> 6`: the distance from the centre to the end taps. */
  function Offset(sizeFixed: int): int
    requires KernelOk(sizeFixed)
  {
    (sizeFixed + 32) / 64
  }

  /** The asserted identity `(offset - 1) * 64 + frac + 32 == sizeFixed` holds for every kernel,
      so the weights, 64 on each of the 2 * offset - 1 inner taps and frac on each end, sum to
      `denom = 2 * sizeFixed`. */
  lemma KernelWeights(sizeFixed: int)
    requires KernelOk(sizeFixed)
    ensures Offset(sizeFixed) >= 1 && 0 <= Frac(sizeFixed) < 64
    ensures (Offset(sizeFixed) - 1) * 64 + Frac(sizeFixed) + 32 == sizeFixed
    ensures 64 * (2 * Offset(sizeFixed) - 1) + 2 * Frac(sizeFixed) == 2 * sizeFixed
  {
    var t := sizeFixed - 32;
    var q := t / 64;
    assert t == 64 * q + t % 64;
    DivModUnique(sizeFixed + 32, 64, q + 1, t % 64);
  }

  // ---------------------------------------------------------------------
  // The window sum a line's output pixel is built from

  /** Channel c of a pixel, c = 0, 1, 2, 3 for r, g, b, a, as the source's accu[c]. */
  function Ch(p: Pixel, c: int): Channel {
    if c == 0 then p.r else if c == 1 then p.g else if c == 2 then p.b else p.a
  }

  /** Channel c of the line pixel that coordinate j reads. */
  function Tap(s: seq<Pixel>, c: int, j: int, mode: int): Channel
    requires |s| >= 1
  {
    Ch(s[Wrapped(j, |s|, mode)], c)
  }

  /** Tap(lo) + Tap(lo + 1) + ... + Tap(lo + n - 1). */
  function TapSum(s: seq<Pixel>, c: int, lo: int, n: nat, mode: int): (t: int)
    requires WidthOk(|s|, mode)
    ensures 0 <= t <= 65535 * n
    decreases n
  {
    if n == 0 then 0 else TapSum(s, c, lo, n - 1, mode) + Tap(s, c, lo + n - 1, mode)
  }

  /** The kernel around output x: weight 64 on the 2 * offset - 1 taps x - offset + 1 ..
      x + offset - 1 and frac on the taps x - offset and x + offset. */
  function Window(s: seq<Pixel>, c: int, x: int, sizeFixed: int, mode: int): int
    requires WidthOk(|s|, mode) && KernelOk(sizeFixed)
  {
    var o, f := Offset(sizeFixed), Frac(sizeFixed);
    f * (Tap(s, c, x - o, mode) + Tap(s, c, x + o, mode)) + 64 * TapSum(s, c, x - o + 1, 2 * o - 1, mode)
  }

  /** A window is a weighted sum of channels whose weights sum to 2 * sizeFixed. */
  lemma WindowBound(s: seq<Pixel>, c: int, x: int, sizeFixed: int, mode: int)
    requires WidthOk(|s|, mode) && KernelOk(sizeFixed)
    ensures 0 <= Window(s, c, x, sizeFixed, mode) <= 65535 * (2 * sizeFixed)
  {
    KernelWeights(sizeFixed);
    var o, f := Offset(sizeFixed), Frac(sizeFixed);
    var a, b := Tap(s, c, x - o, mode), Tap(s, c, x + o, mode);
    var t := TapSum(s, c, x - o + 1, 2 * o - 1, mode);
    assert f * (a + b) <= f * (2 * 65535) by {
      MulMonotone(f, a + b, 2 * 65535);
    }
    assert 64 * t <= 64 * (65535 * (2 * o - 1));
    assert f * (2 * 65535) + 64 * (65535 * (2 * o - 1)) == 65535 * (2 * sizeFixed);
    assert 0 <= f * (a + b) by {
      MulMonotone(f, 0, a + b);
    }
  }

  /** One output channel, `accu / denom` with the accumulator at `bias + Window`: the window
      divided by 2 * sizeFixed, rounded to nearest. */
  function BlurChannel(s: seq<Pixel>, c: int, x: int, sizeFixed: int, mode: int): (v: Channel)
    requires WidthOk(|s|, mode) && KernelOk(sizeFixed)
    ensures 2 * sizeFixed * v <= Window(s, c, x, sizeFixed, mode) + sizeFixed < 2 * sizeFixed * (v + 1)
  {
    WindowBound(s, c, x, sizeFixed, mode);
    var n, d := Window(s, c, x, sizeFixed, mode) + sizeFixed, 2 * sizeFixed;
    QuotientBounds(n, d);
    n / d
  }

  lemma QuotientBounds(n: int, d: int)
    requires 0 < d && 0 <= n < 65536 * d
    ensures 0 <= n / d < 65536 && d * (n / d) <= n < d * (n / d + 1)
  {
    assert n == d * (n / d) + n % d;
    DivLess(n, d, 65536);
  }

  /** Output pixel x of Blur1DBuffer on line s. */
  function BlurredPixel(s: seq<Pixel>, x: int, sizeFixed: int, mode: int): Pixel
    requires WidthOk(|s|, mode) && KernelOk(sizeFixed)
  {
    Pixel(BlurChannel(s, 0, x, sizeFixed, mode), BlurChannel(s, 1, x, sizeFixed, mode),
          BlurChannel(s, 2, x, sizeFixed, mode), BlurChannel(s, 3, x, sizeFixed, mode))
  }

  /** One Blur1DBuffer pass over a whole line. */
  function BlurLine(s: seq<Pixel>, sizeFixed: int, mode: int): (r: seq<Pixel>)
    requires WidthOk(|s|, mode) && KernelOk(sizeFixed)
    ensures |r| == |s|
  {
    seq(|s|, x requires 0 <= x < |s| => BlurredPixel(s, x, sizeFixed, mode))
  }

  lemma {:induction false} TapSumFront(s: seq<Pixel>, c: int, lo: int, n: nat, mode: int)
    requires WidthOk(|s|, mode)
    ensures TapSum(s, c, lo, n + 1, mode) == Tap(s, c, lo, mode) + TapSum(s, c, lo + 1, n, mode)
    decreases n
  {
    if n > 0 {
      TapSumFront(s, c, lo, n - 1, mode);
    }
  }

  lemma {:induction false} TapSumSplit(s: seq<Pixel>, c: int, lo: int, a: nat, b: nat, mode: int)
    requires WidthOk(|s|, mode)
    ensures TapSum(s, c, lo, a + b, mode) == TapSum(s, c, lo, a, mode) + TapSum(s, c, lo + a, b, mode)
    decreases b
  {
    if b > 0 {
      TapSumSplit(s, c, lo, a, b - 1, mode);
    }
  }

  /** Clamp mode reads pixel 0 for every coordinate up to 0. */
  lemma {:induction false} TapSumClampLeft(s: seq<Pixel>, c: int, lo: int, n: nat, mode: int)
    requires WidthOk(|s|, mode) && mode != 0 && lo + n <= 1
    ensures TapSum(s, c, lo, n, mode) == n * Ch(s[0], c)
    decreases n
  {
    if n > 0 {
      TapSumClampLeft(s, c, lo, n - 1, mode);
    }
  }

  /** Moving the kernel one pixel right: the accumulator update of the output loop. */
  lemma WindowStep(s: seq<Pixel>, c: int, x: int, sizeFixed: int, mode: int)
    requires WidthOk(|s|, mode) && KernelOk(sizeFixed)
    ensures var o, f := Offset(sizeFixed), Frac(sizeFixed);
      Window(s, c, x + 1, sizeFixed, mode) == Window(s, c, x, sizeFixed, mode)
        + 64 * (Tap(s, c, x + o, mode) - Tap(s, c, x - o + 1, mode))
        + f * (Tap(s, c, x + o + 1, mode) - Tap(s, c, x + o, mode) - Tap(s, c, x - o, mode) + Tap(s, c, x - o + 1, mode))
  {
    KernelWeights(sizeFixed);
    var o := Offset(sizeFixed);
    var n: nat := 2 * o - 1;
    TapSumFront(s, c, x - o + 1, n, mode);
    assert x - o + 1 + n == x + o;
    assert x + 1 - o + 1 == x - o + 2;
  }

  /** The clamp-mode start value, `src[0] * (sizeFixed + 32)` plus the right half of the
      kernel, is the window at 0: every tap left of 0 reads pixel 0. */
  lemma ClampWindowStart(s: seq<Pixel>, c: int, sizeFixed: int, mode: int)
    requires WidthOk(|s|, mode) && KernelOk(sizeFixed) && mode != 0
    ensures var o, f := Offset(sizeFixed), Frac(sizeFixed);
      Window(s, c, 0, sizeFixed, mode) ==
        Ch(s[0], c) * (sizeFixed + 32) + f * Tap(s, c, o, mode) + 64 * TapSum(s, c, 1, o - 1, mode)
  {
    KernelWeights(sizeFixed);
    var o, f := Offset(sizeFixed), Frac(sizeFixed);
    var v, r := Ch(s[0], c), Tap(s, c, o, mode);
    TapSumSplit(s, c, -o + 1, o, o - 1, mode);
    TapSumClampLeft(s, c, -o + 1, o, mode);
    var right := TapSum(s, c, 1, o - 1, mode);
    assert TapSum(s, c, -o + 1, 2 * o - 1, mode) == o * v + right;
    assert Tap(s, c, -o, mode) == v;
    assert Window(s, c, 0, sizeFixed, mode) == f * (v + r) + 64 * (o * v + right);
    assert f + 64 * o == sizeFixed + 32;
    Regroup(f, o, v, r, right);
  }

  lemma Regroup(f: int, o: int, v: int, r: int, t: int)
    ensures f * (v + r) + 64 * (o * v + t) == v * (f + 64 * o) + f * r + 64 * t
  {
  }

  lemma ConstantWeights(f: int, n: int, v: int, sizeFixed: int)
    requires 2 * f + 64 * n == 2 * sizeFixed
    ensures f * (v + v) + 64 * (n * v) == (2 * sizeFixed) * v
  {
    assert f * (v + v) + 64 * (n * v) == (2 * f + 64 * n) * v;
  }

  /** A sum of n taps of a channel whose values all lie in [lo, hi] lies in [n * lo, n * hi]. */
  lemma {:induction false} TapSumBetween(s: seq<Pixel>, c: int, x: int, n: nat, mode: int, lo: int, hi: int)
    requires WidthOk(|s|, mode) && forall i :: 0 <= i < |s| ==> lo <= Ch(s[i], c) <= hi
    ensures n * lo <= TapSum(s, c, x, n, mode) <= n * hi
    decreases n
  {
    if n > 0 {
      TapSumBetween(s, c, x, n - 1, mode, lo, hi);
      var w := Wrapped(x + n - 1, |s|, mode);
      assert Tap(s, c, x + n - 1, mode) == Ch(s[w], c);
      assert (n - 1) * lo + lo == n * lo && (n - 1) * hi + hi == n * hi;
    }
  }

  lemma WeightsBetween(f: int, n: int, a: int, b: int, t: int, lo: int, hi: int, sizeFixed: int)
    requires 2 * f + 64 * n == 2 * sizeFixed && 0 <= f && 0 <= n
    requires lo <= a <= hi && lo <= b <= hi && n * lo <= t <= n * hi
    ensures (2 * sizeFixed) * lo <= f * (a + b) + 64 * t <= (2 * sizeFixed) * hi
  {
    MulMonotone(f, 2 * lo, a + b);
    MulMonotone(f, a + b, 2 * hi);
    assert (2 * sizeFixed) * lo == f * (2 * lo) + 64 * (n * lo);
    assert (2 * sizeFixed) * hi == f * (2 * hi) + 64 * (n * hi);
  }

  /** Blurring averages: when channel c of every pixel of the line lies in [lo, hi], so does
      channel c of every output pixel. */
  lemma BlurChannelBetween(s: seq<Pixel>, c: int, x: int, sizeFixed: int, mode: int, lo: int, hi: int)
    requires WidthOk(|s|, mode) && KernelOk(sizeFixed)
    requires forall i :: 0 <= i < |s| ==> lo <= Ch(s[i], c) <= hi
    ensures lo <= BlurChannel(s, c, x, sizeFixed, mode) <= hi
  {
    KernelWeights(sizeFixed);
    var o, f := Offset(sizeFixed), Frac(sizeFixed);
    var n: nat := 2 * o - 1;
    TapSumBetween(s, c, x - o + 1, n, mode, lo, hi);
    var wa, wb := Wrapped(x - o, |s|, mode), Wrapped(x + o, |s|, mode);
    assert Tap(s, c, x - o, mode) == Ch(s[wa], c);
    assert Tap(s, c, x + o, mode) == Ch(s[wb], c);
    WeightsBetween(f, n, Tap(s, c, x - o, mode), Tap(s, c, x + o, mode),
      TapSum(s, c, x - o + 1, n, mode), lo, hi, sizeFixed);
    RoundedBetween(Window(s, c, x, sizeFixed, mode), sizeFixed, lo, hi);
  }

  lemma RoundedBetween(w: int, sizeFixed: int, lo: int, hi: int)
    requires sizeFixed > 0 && (2 * sizeFixed) * lo <= w <= (2 * sizeFixed) * hi
    ensures lo <= (w + sizeFixed) / (2 * sizeFixed) <= hi
  {
    var d := 2 * sizeFixed;
    DivBracket(d * lo, d, lo);
    DivMonotone(d * lo, w + sizeFixed, d);
    DivBracket(d * hi + d - 1, d, hi);
    DivMonotone(w + sizeFixed, d * hi + d - 1, d);
  }

  lemma BlurredPixelConstant(s: seq<Pixel>, x: int, sizeFixed: int, mode: int)
    requires WidthOk(|s|, mode) && KernelOk(sizeFixed)
    requires forall i :: 0 <= i < |s| ==> s[i] == s[0]
    ensures BlurredPixel(s, x, sizeFixed, mode) == s[0]
  {
    var p := s[0];
    BlurChannelBetween(s, 0, x, sizeFixed, mode, p.r, p.r);
    BlurChannelBetween(s, 1, x, sizeFixed, mode, p.g, p.g);
    BlurChannelBetween(s, 2, x, sizeFixed, mode, p.b, p.b);
    BlurChannelBetween(s, 3, x, sizeFixed, mode, p.a, p.a);
  }

  /** So a line of one colour is returned unchanged by a pass. */
  lemma BlurLineConstant(s: seq<Pixel>, sizeFixed: int, mode: int)
    requires WidthOk(|s|, mode) && KernelOk(sizeFixed)
    requires forall i :: 0 <= i < |s| ==> s[i] == s[0]
    ensures BlurLine(s, sizeFixed, mode) == s
  {
    var r := BlurLine(s, sizeFixed, mode);
    forall x | 0 <= x < |s|
      ensures r[x] == s[x]
    {
      BlurredPixelConstant(s, x, sizeFixed, mode);
    }
    assert r == s;
  }

  /** Up to sizeFixed = 32768 every value the accumulator is proved to hold, `bias + Window`,
      fits a uint32. */
  lemma AccuFits(s: seq<Pixel>, c: int, x: int, sizeFixed: int, mode: int)
    requires WidthOk(|s|, mode) && KernelOk(sizeFixed) && sizeFixed <= 32768
    ensures 0 <= Window(s, c, x, sizeFixed, mode) + sizeFixed < TWO32
  {
    WindowBound(s, c, x, sizeFixed, mode);
  }

  /** One output channel as the source writes it: the accumulator is a uint32_t, so it holds
      `bias + Window` modulo 2^32, and the quotient is stored into a 16-bit channel. */
  function BlurChannelUint32(s: seq<Pixel>, c: int, x: int, sizeFixed: int, mode: int): (v: Channel)
    requires WidthOk(|s|, mode) && KernelOk(sizeFixed)
    ensures sizeFixed <= 32768 ==> v == BlurChannel(s, c, x, sizeFixed, mode)
  {
    var n, d := Window(s, c, x, sizeFixed, mode) + sizeFixed, 2 * sizeFixed;
    var q := (n % TWO32) / d;
    if sizeFixed <= 32768 then
      Uint32Exact(s, c, x, sizeFixed, mode);
      q % 0x1_0000
    else
      q % 0x1_0000
  }

  lemma Uint32Exact(s: seq<Pixel>, c: int, x: int, sizeFixed: int, mode: int)
    requires WidthOk(|s|, mode) && KernelOk(sizeFixed) && sizeFixed <= 32768
    ensures var n, d := Window(s, c, x, sizeFixed, mode) + sizeFixed, 2 * sizeFixed;
      ((n % TWO32) / d) % 0x1_0000 == BlurChannel(s, c, x, sizeFixed, mode)
  {
    AccuFits(s, c, x, sizeFixed, mode);
    NoWrapQuotient(Window(s, c, x, sizeFixed, mode) + sizeFixed, 2 * sizeFixed, BlurChannel(s, c, x, sizeFixed, mode));
  }

  /** A quotient that fits 16 bits of a numerator that fits 32 bits is unchanged by either truncation. */
  lemma NoWrapQuotient(n: int, d: int, v: int)
    requires 0 <= n < TWO32 && 0 < d && 0 <= v < 0x1_0000 && d * v <= n < d * (v + 1)
    ensures ((n % TWO32) / d) % 0x1_0000 == v
  {
    assert n % TWO32 == n;
    DivBracket(n, d, v);
  }

  /** Past sizeFixed = 32768 the uint32 accumulator wraps. Blur passes sizeFixed = 32 * XRes for a
      full-size kernel, so already at XRes = 2048 with size 1 a line whose channel c is white
      everywhere comes out at 32767, while the exact average (BlurChannel) stays 65535. */
  lemma WhiteLineWraps(s: seq<Pixel>, c: int, x: int, mode: int)
    requires WidthOk(|s|, mode) && forall i :: 0 <= i < |s| ==> Ch(s[i], c) == 65535
    ensures BlurChannelUint32(s, c, x, 65536, mode) == 32767
    ensures BlurChannel(s, c, x, 65536, mode) == 65535
  {
    var o, f := Offset(65536), Frac(65536);
    assert o == 1024 && f == 32;
    TapSumBetween(s, c, x - o + 1, 2 * o - 1, mode, 65535, 65535);
    var wa, wb := Wrapped(x - o, |s|, mode), Wrapped(x + o, |s|, mode);
    assert Tap(s, c, x - o, mode) == Ch(s[wa], c) == 65535;
    assert Tap(s, c, x + o, mode) == Ch(s[wb], c) == 65535;
    assert Window(s, c, x, 65536, mode) == 65535 * 131072;
    BlurChannelBetween(s, c, x, 65536, mode, 65535, 65535);
  }

  // ---------------------------------------------------------------------
  // Blur1DBuffer (filters.cpp:223-305)

  /** The four accumulators, each plus w times the matching channel of p. */
  function AddWeighted(accu: seq<int>, p: Pixel, w: int): (r: seq<int>)
    requires |accu| == 4
    ensures |r| == 4 && forall c :: 0 <= c < 4 ==> r[c] == accu[c] + w * Ch(p, c)
  {
    seq(4, c requires 0 <= c < 4 => accu[c] + w * Ch(p, c))
  }

  /** The accumulator update of the output loop, from the pixels at x - offset, x - offset + 1,
      x + offset and x + offset + 1. */
  function Slide(accu: seq<int>, l0: Pixel, l1: Pixel, r0: Pixel, r1: Pixel, frac: int): (r: seq<int>)
    requires |accu| == 4
    ensures |r| == 4
  {
    seq(4, c requires 0 <= c < 4 =>
      accu[c] + 64 * (Ch(r0, c) - Ch(l1, c)) + frac * (Ch(r1, c) - Ch(r0, c) - Ch(l0, c) + Ch(l1, c)))
  }

  /** Wrap mode's start value, `frac * (l + r) + bias` for each channel. */
  function EndTaps(l: Pixel, r: Pixel, frac: int, bias: int): (a: seq<int>)
    ensures |a| == 4 && forall c :: 0 <= c < 4 ==> a[c] == frac * (Ch(l, c) + Ch(r, c)) + bias
  {
    seq(4, c requires 0 <= c < 4 => frac * (Ch(l, c) + Ch(r, c)) + bias)
  }

  /** Clamp mode's start value, `p * w + bias` for each channel. */
  function Repeated(p: Pixel, w: int, bias: int): (a: seq<int>)
    ensures |a| == 4 && forall c :: 0 <= c < 4 ==> a[c] == Ch(p, c) * w + bias
  {
    seq(4, c requires 0 <= c < 4 => Ch(p, c) * w + bias)
  }

  /** The accumulator values of the output loop at pixel x: bias plus the window. */
  function Accus(s: seq<Pixel>, x: int, sizeFixed: int, mode: int): (a: seq<int>)
    requires WidthOk(|s|, mode) && KernelOk(sizeFixed)
    ensures |a| == 4
  {
    seq(4, c requires 0 <= c < 4 => Window(s, c, x, sizeFixed, mode) + sizeFixed)
  }

  /** The update of the output loop moves the accumulators from pixel x to pixel x + 1. */
  lemma SlideStep(s: seq<Pixel>, x: int, sizeFixed: int, mode: int, l0: Pixel, l1: Pixel, r0: Pixel, r1: Pixel)
    requires WidthOk(|s|, mode) && KernelOk(sizeFixed)
    requires l0 == s[Wrapped(x - Offset(sizeFixed), |s|, mode)] && l1 == s[Wrapped(x - Offset(sizeFixed) + 1, |s|, mode)]
    requires r0 == s[Wrapped(x + Offset(sizeFixed), |s|, mode)] && r1 == s[Wrapped(x + Offset(sizeFixed) + 1, |s|, mode)]
    ensures Slide(Accus(s, x, sizeFixed, mode), l0, l1, r0, r1, Frac(sizeFixed)) == Accus(s, x + 1, sizeFixed, mode)
  {
    var a := Slide(Accus(s, x, sizeFixed, mode), l0, l1, r0, r1, Frac(sizeFixed));
    forall c | 0 <= c < 4
      ensures a[c] == Accus(s, x + 1, sizeFixed, mode)[c]
    {
      WindowStep(s, c, x, sizeFixed, mode);
    }
  }

  /** `accu / denom` of the accumulators at pixel x is output pixel x. */
  lemma EmitStep(s: seq<Pixel>, x: int, sizeFixed: int, mode: int, accu: seq<int>, denom: int)
    requires WidthOk(|s|, mode) && KernelOk(sizeFixed)
    requires accu == Accus(s, x, sizeFixed, mode) && denom == 2 * sizeFixed
    ensures accu[0] / denom == BlurChannel(s, 0, x, sizeFixed, mode) && accu[1] / denom == BlurChannel(s, 1, x, sizeFixed, mode)
    ensures accu[2] / denom == BlurChannel(s, 2, x, sizeFixed, mode) && accu[3] / denom == BlurChannel(s, 3, x, sizeFixed, mode)
  {
  }

  /** The accumulators before the output loop, wrap mode: both partly covered end pixels and
      the 2 * offset - 1 inner ones around pixel 0. */
  method InitWrap(src: array<Pixel>, width: int, sizeFixed: int, frac: int, offset: int) returns (accu: seq<int>)
    requires 1 <= width <= src.Length && WidthOk(width, 0) && KernelOk(sizeFixed)
    requires frac == Frac(sizeFixed) && offset == Offset(sizeFixed)
    ensures |accu| == 4
    ensures forall c :: 0 <= c < 4 ==> accu[c] == Window(src[..width], c, 0, sizeFixed, 0) + sizeFixed
  {
    ghost var s := src[..width];
    KernelWeights(sizeFixed);
    var xl := WrapCoord(-offset, width, 0);
    var xr := WrapCoord(offset, width, 0);
    accu := EndTaps(src[xl], src[xr], frac, sizeFixed);
    var x := -offset + 1;
    while x <= offset - 1
      invariant -offset + 1 <= x <= offset && |accu| == 4
      invariant forall c :: 0 <= c < 4 ==>
        accu[c] == frac * (Tap(s, c, -offset, 0) + Tap(s, c, offset, 0)) + sizeFixed
                   + 64 * TapSum(s, c, -offset + 1, x + offset - 1, 0)
    {
      var xc := WrapCoord(x, width, 0);
      accu := AddWeighted(accu, src[xc], 64);
      x := x + 1;
    }
    forall c | 0 <= c < 4
      ensures accu[c] == Window(s, c, 0, sizeFixed, 0) + sizeFixed
    {
      WindowAtZero(s, c, sizeFixed, 0);
    }
  }

  lemma WindowAtZero(s: seq<Pixel>, c: int, sizeFixed: int, mode: int)
    requires WidthOk(|s|, mode) && KernelOk(sizeFixed)
    ensures var o := Offset(sizeFixed);
      Window(s, c, 0, sizeFixed, mode) ==
      Frac(sizeFixed) * (Tap(s, c, -o, mode) + Tap(s, c, o, mode)) + 64 * TapSum(s, c, -o + 1, 2 * o - 1, mode)
  {
  }

  /** The accumulators before the output loop, clamp mode: pixel 0 repeated over the left half
      and its centre, then the right half of the kernel. */
  method InitClamp(src: array<Pixel>, width: int, sizeFixed: int, frac: int, offset: int) returns (accu: seq<int>)
    requires 1 <= width <= src.Length && WidthOk(width, 1) && KernelOk(sizeFixed)
    requires frac == Frac(sizeFixed) && offset == Offset(sizeFixed)
    ensures |accu| == 4
    ensures forall c :: 0 <= c < 4 ==> accu[c] == Window(src[..width], c, 0, sizeFixed, 1) + sizeFixed
  {
    ghost var s := src[..width];
    KernelWeights(sizeFixed);
    accu := Repeated(src[0], sizeFixed + 32, sizeFixed);
    var xr := WrapCoord(offset, width, 1);
    accu := AddWeighted(accu, src[xr], frac);
    var x := 1;
    while x <= offset - 1
      invariant 1 <= x <= offset && |accu| == 4
      invariant forall c :: 0 <= c < 4 ==>
        accu[c] == Ch(s[0], c) * (sizeFixed + 32) + sizeFixed + frac * Tap(s, c, offset, 1)
                   + 64 * TapSum(s, c, 1, x - 1, 1)
    {
      var xc := WrapCoord(x, width, 1);
      accu := AddWeighted(accu, src[xc], 64);
      x := x + 1;
    }
    forall c | 0 <= c < 4
      ensures accu[c] == Window(s, c, 0, sizeFixed, 1) + sizeFixed
    {
      ClampWindowStart(s, c, sizeFixed, 1);
    }
  }

  /** One turn of the output loop: writes dst[x] from the accumulators and moves them on. */
  method OutputPixel(dst: array<Pixel>, src: array<Pixel>, width: int, sizeFixed: int, wrapMode: int,
                     frac: int, offset: int, denom: int, x: int, accu: seq<int>, ghost s: seq<Pixel>)
    returns (next: seq<int>)
    requires dst != src && 0 <= x < width <= dst.Length && width <= src.Length
    requires WidthOk(width, wrapMode) && KernelOk(sizeFixed) && s == src[..width]
    requires frac == Frac(sizeFixed) && offset == Offset(sizeFixed) && denom == 2 * sizeFixed
    requires accu == Accus(s, x, sizeFixed, wrapMode)
    modifies dst
    ensures dst[x] == BlurredPixel(s, x, sizeFixed, wrapMode) && next == Accus(s, x + 1, sizeFixed, wrapMode)
    ensures forall j :: 0 <= j < dst.Length && j != x ==> dst[j] == old(dst[j])
  {
    EmitStep(s, x, sizeFixed, wrapMode, accu, denom);
    dst[x] := Pixel(accu[0] / denom, accu[1] / denom, accu[2] / denom, accu[3] / denom);
    var xl0 := WrapCoord(x - offset, width, wrapMode);
    var xl1 := WrapCoord(x - offset + 1, width, wrapMode);
    var xr0 := WrapCoord(x + offset, width, wrapMode);
    var xr1 := WrapCoord(x + offset + 1, width, wrapMode);
    SlideStep(s, x, sizeFixed, wrapMode, src[xl0], src[xl1], src[xr0], src[xr1]);
    next := Slide(accu, src[xl0], src[xl1], src[xr0], src[xr1], frac);
  }

  /** The set-up of Blur1DBuffer: the kernel's fraction and offset, the divisor, and the
      accumulator of the first window with the rounding bias already added. */
  method StartLine(src: array<Pixel>, width: int, sizeFixed: int, wrapMode: int)
    returns (frac: int, offset: int, denom: int, accu: seq<int>)
    requires width <= src.Length
    requires WidthOk(width, wrapMode) && KernelOk(sizeFixed) && (wrapMode == 0 || wrapMode == 1)
    ensures frac == Frac(sizeFixed) && offset == Offset(sizeFixed) && denom == 2 * sizeFixed
    ensures accu == Accus(src[..width], 0, sizeFixed, wrapMode)
  {
    frac := And32(sizeFixed - 32, 63);
    FracMask(sizeFixed);
    offset := (sizeFixed + 32) / 64;
    assert offset == Offset(sizeFixed) && frac == Frac(sizeFixed);
    denom := sizeFixed * 2;
    var bias := denom / 2;
    assert bias == sizeFixed;
    if wrapMode == 0 {
      accu := InitWrap(src, width, sizeFixed, frac, offset);
    } else {
      accu := InitClamp(src, width, sizeFixed, frac, offset);
    }
    assert accu == Accus(src[..width], 0, sizeFixed, wrapMode);
  }

  /** One pass of the kernel over src[0..width], written to dst[0..width]: each output pixel is
      its window divided by 2 * sizeFixed, rounded to nearest. */
  method Blur1DBuffer(dst: array<Pixel>, src: array<Pixel>, width: int, sizeFixed: int, wrapMode: int)
    requires dst != src && width <= dst.Length && width <= src.Length
    requires WidthOk(width, wrapMode) && KernelOk(sizeFixed) && (wrapMode == 0 || wrapMode == 1)
    modifies dst
    ensures dst[..width] == BlurLine(old(src[..width]), sizeFixed, wrapMode)
    ensures dst[width..] == old(dst[width..])
  {
    ghost var s := src[..width];
    var frac, offset, denom, accu := StartLine(src, width, sizeFixed, wrapMode);
    var x := 0;
    while x < width
      invariant 0 <= x <= width && src[..width] == s
      invariant accu == Accus(s, x, sizeFixed, wrapMode)
      invariant forall j :: 0 <= j < x ==> dst[j] == BlurredPixel(s, j, sizeFixed, wrapMode)
      invariant forall j :: width <= j < dst.Length ==> dst[j] == old(dst[j])
    {
      accu := OutputPixel(dst, src, width, sizeFixed, wrapMode, frac, offset, denom, x, accu, s);
      x := x + 1;
    }
    assert dst[..width] == BlurLine(s, sizeFixed, wrapMode);
  }

  // ---------------------------------------------------------------------
  // Blur (filters.cpp:307-391), stated on the pixels of a row-major X by Y texture

  /** `order` passes of Blur1DBuffer, ping-ponging between the two buffers. */
  function Passes(s: seq<Pixel>, sizeFixed: int, mode: int, n: nat): (r: seq<Pixel>)
    requires WidthOk(|s|, mode) && KernelOk(sizeFixed)
    ensures |r| == |s|
    decreases n
  {
    if n == 0 then s else BlurLine(Passes(s, sizeFixed, mode, n - 1), sizeFixed, mode)
  }

  predicate GridOk(d: seq<Pixel>, X: int, Y: int) {
    X > 0 && Y > 0 && |d| == X * Y
  }

  /** Row y of the texture: the X pixels from y * X on. */
  function RowOf(d: seq<Pixel>, X: int, Y: int, y: int): (r: seq<Pixel>)
    requires GridOk(d, X, Y) && 0 <= y < Y
    ensures |r| == X
  {
    GridIndex(y, 0, X, Y);
    GridCell(y * X, X, Y);
    d[y * X .. y * X + X]
  }

  /** Column x of the texture: pixel x of every row, top to bottom. */
  function ColumnOf(d: seq<Pixel>, X: int, Y: int, x: int): (r: seq<Pixel>)
    requires GridOk(d, X, Y) && 0 <= x < X
    ensures |r| == Y
  {
    seq(Y, y requires 0 <= y < Y => GridIndex(y, x, X, Y); d[y * X + x])
  }

  /** The horizontal pass: every row blurred `order` times. */
  function BlurRows(d: seq<Pixel>, X: int, Y: int, sizeFixed: int, mode: int, order: nat): (r: seq<Pixel>)
    requires GridOk(d, X, Y) && WidthOk(X, mode) && KernelOk(sizeFixed)
    ensures |r| == |d|
  {
    seq(|d|, k requires 0 <= k < |d| =>
      GridCell(k, X, Y); Passes(RowOf(d, X, Y, k / X), sizeFixed, mode, order)[k % X])
  }

  /** The vertical pass: every column blurred `order` times. */
  function BlurColumns(d: seq<Pixel>, X: int, Y: int, sizeFixed: int, mode: int, order: nat): (r: seq<Pixel>)
    requires GridOk(d, X, Y) && WidthOk(Y, mode) && KernelOk(sizeFixed)
    ensures |r| == |d|
  {
    seq(|d|, k requires 0 <= k < |d| =>
      GridCell(k, X, Y); Passes(ColumnOf(d, X, Y, k % X), sizeFixed, mode, order)[k / X])
  }

  /** The Blur1DBuffer mode of each direction: `(wrapMode & ClampU) ? 1 : 0` and likewise V. */
  function ModeU(wrapMode: int): int { if ClampsU(wrapMode) then 1 else 0 }
  function ModeV(wrapMode: int): int { if ClampsV(wrapMode) then 1 else 0 }

  /** What Blur computes from the pixels d of an X by Y texture, given the kernel sizes in
      26.6 fixed point: a copy when nothing is to be blurred, else the horizontal pass when
      sizeX exceeds one pixel, then the vertical pass on its result when sizeY does. */
  function Blurred(d: seq<Pixel>, X: int, Y: int, sizeX: int, sizeY: int, order: int, wrapMode: int): (r: seq<Pixel>)
    requires ResOk(X) && ResOk(Y) && |d| == X * Y
    requires order >= 1 && (sizeX > 32 || sizeY > 32) ==> X > 0 && Y > 0
    ensures |r| == |d|
  {
    if order < 1 || (sizeX <= 32 && sizeY <= 32) then d
    else
      var h := if sizeX > 32 then BlurRows(d, X, Y, sizeX, ModeU(wrapMode), order) else d;
      if sizeY > 32 then BlurColumns(h, X, Y, sizeY, ModeV(wrapMode), order) else h
  }

  // Blurring averages, so it keeps every channel inside the range it had.

  ghost predicate ChannelWithin(s: seq<Pixel>, c: int, lo: int, hi: int) {
    forall i :: 0 <= i < |s| ==> lo <= Ch(s[i], c) <= hi
  }

  lemma BlurLineWithin(s: seq<Pixel>, sizeFixed: int, mode: int, c: int, lo: int, hi: int)
    requires WidthOk(|s|, mode) && KernelOk(sizeFixed) && 0 <= c < 4 && ChannelWithin(s, c, lo, hi)
    ensures ChannelWithin(BlurLine(s, sizeFixed, mode), c, lo, hi)
  {
    var r := BlurLine(s, sizeFixed, mode);
    forall x | 0 <= x < |r|
      ensures lo <= Ch(r[x], c) <= hi
    {
      BlurChannelBetween(s, c, x, sizeFixed, mode, lo, hi);
      assert Ch(r[x], c) == BlurChannel(s, c, x, sizeFixed, mode);
    }
  }

  lemma {:induction false} PassesWithin(s: seq<Pixel>, sizeFixed: int, mode: int, n: nat, c: int, lo: int, hi: int)
    requires WidthOk(|s|, mode) && KernelOk(sizeFixed) && 0 <= c < 4 && ChannelWithin(s, c, lo, hi)
    ensures ChannelWithin(Passes(s, sizeFixed, mode, n), c, lo, hi)
    decreases n
  {
    if n > 0 {
      PassesWithin(s, sizeFixed, mode, n - 1, c, lo, hi);
      BlurLineWithin(Passes(s, sizeFixed, mode, n - 1), sizeFixed, mode, c, lo, hi);
    }
  }

  lemma BlurRowsWithin(d: seq<Pixel>, X: int, Y: int, sizeFixed: int, mode: int, order: nat, c: int, lo: int, hi: int)
    requires GridOk(d, X, Y) && WidthOk(X, mode) && KernelOk(sizeFixed) && 0 <= c < 4 && ChannelWithin(d, c, lo, hi)
    ensures ChannelWithin(BlurRows(d, X, Y, sizeFixed, mode, order), c, lo, hi)
  {
    var r := BlurRows(d, X, Y, sizeFixed, mode, order);
    forall k | 0 <= k < |r|
      ensures lo <= Ch(r[k], c) <= hi
    {
      GridCell(k, X, Y);
      var y := k / X;
      RowWithin(d, X, Y, y, c, lo, hi);
      PassesWithin(RowOf(d, X, Y, y), sizeFixed, mode, order, c, lo, hi);
      assert r[k] == Passes(RowOf(d, X, Y, y), sizeFixed, mode, order)[k % X];
    }
  }

  lemma RowWithin(d: seq<Pixel>, X: int, Y: int, y: int, c: int, lo: int, hi: int)
    requires GridOk(d, X, Y) && 0 <= y < Y && ChannelWithin(d, c, lo, hi)
    ensures ChannelWithin(RowOf(d, X, Y, y), c, lo, hi)
  {
    var row := RowOf(d, X, Y, y);
    GridIndex(y, 0, X, Y);
    GridCell(y * X, X, Y);
    assert row == d[y * X .. y * X + X];
    forall i | 0 <= i < X
      ensures lo <= Ch(row[i], c) <= hi
    {
      assert row[i] == d[y * X + i];
    }
  }

  lemma BlurColumnsWithin(d: seq<Pixel>, X: int, Y: int, sizeFixed: int, mode: int, order: nat, c: int, lo: int, hi: int)
    requires GridOk(d, X, Y) && WidthOk(Y, mode) && KernelOk(sizeFixed) && 0 <= c < 4 && ChannelWithin(d, c, lo, hi)
    ensures ChannelWithin(BlurColumns(d, X, Y, sizeFixed, mode, order), c, lo, hi)
  {
    var r := BlurColumns(d, X, Y, sizeFixed, mode, order);
    forall k | 0 <= k < |r|
      ensures lo <= Ch(r[k], c) <= hi
    {
      GridCell(k, X, Y);
      var col := ColumnOf(d, X, Y, k % X);
      assert ChannelWithin(col, c, lo, hi) by {
        forall i | 0 <= i < Y
          ensures lo <= Ch(col[i], c) <= hi
        {
          GridIndex(i, k % X, X, Y);
          assert col[i] == d[i * X + k % X];
        }
      }
      PassesWithin(col, sizeFixed, mode, order, c, lo, hi);
    }
  }

  /** Every channel of every pixel Blur writes lies between the smallest and the largest value
      that channel had in the input texture. */
  lemma BlurredWithin(d: seq<Pixel>, X: int, Y: int, sizeX: int, sizeY: int, order: int, wrapMode: int,
                      c: int, lo: int, hi: int)
    requires ResOk(X) && ResOk(Y) && |d| == X * Y
    requires order >= 1 && (sizeX > 32 || sizeY > 32) ==> X > 0 && Y > 0
    requires 0 <= c < 4 && ChannelWithin(d, c, lo, hi)
    ensures ChannelWithin(Blurred(d, X, Y, sizeX, sizeY, order, wrapMode), c, lo, hi)
  {
    if !(order < 1 || (sizeX <= 32 && sizeY <= 32)) {
      var h := if sizeX > 32 then BlurRows(d, X, Y, sizeX, ModeU(wrapMode), order) else d;
      if sizeX > 32 {
        BlurRowsWithin(d, X, Y, sizeX, ModeU(wrapMode), order, c, lo, hi);
      }
      if sizeY > 32 {
        BlurColumnsWithin(h, X, Y, sizeY, ModeV(wrapMode), order, c, lo, hi);
      }
    }
  }

  /** So a texture of one colour comes out of Blur unchanged. */
  lemma BlurredConstant(d: seq<Pixel>, X: int, Y: int, sizeX: int, sizeY: int, order: int, wrapMode: int)
    requires ResOk(X) && ResOk(Y) && |d| == X * Y
    requires order >= 1 && (sizeX > 32 || sizeY > 32) ==> X > 0 && Y > 0
    requires forall i :: 0 <= i < |d| ==> d[i] == d[0]
    ensures Blurred(d, X, Y, sizeX, sizeY, order, wrapMode) == d
  {
    var r := Blurred(d, X, Y, sizeX, sizeY, order, wrapMode);
    if |d| > 0 {
      var p := d[0];
      BlurredWithin(d, X, Y, sizeX, sizeY, order, wrapMode, 0, p.r, p.r);
      BlurredWithin(d, X, Y, sizeX, sizeY, order, wrapMode, 1, p.g, p.g);
      BlurredWithin(d, X, Y, sizeX, sizeY, order, wrapMode, 2, p.b, p.b);
      BlurredWithin(d, X, Y, sizeX, sizeY, order, wrapMode, 3, p.a, p.a);
      forall k | 0 <= k < |d|
        ensures r[k] == d[k]
      {
        assert Ch(r[k], 0) == p.r && Ch(r[k], 1) == p.g && Ch(r[k], 2) == p.b && Ch(r[k], 3) == p.a;
      }
    }
  }

  // ---------------------------------------------------------------------
  // The buffers of Blur

  /** memcpy of n pixels from src[from..] to dst[to..]. */
  method CopyRun(dst: array<Pixel>, to: int, src: array<Pixel>, from: int, n: int)
    requires dst != src && 0 <= n && 0 <= to && to + n <= dst.Length && 0 <= from && from + n <= src.Length
    modifies dst
    ensures dst[to..to + n] == src[from..from + n]
    ensures forall k :: 0 <= k < dst.Length && !(to <= k < to + n) ==> dst[k] == old(dst[k])
  {
    var i := 0;
    while i < n
      invariant 0 <= i <= n
      invariant dst[to..to + i] == src[from..from + i]
      invariant forall k :: 0 <= k < dst.Length && !(to <= k < to + i) ==> dst[k] == old(dst[k])
    {
      dst[to + i] := src[from + i];
      i := i + 1;
    }
  }

  /** The vertical pass's copy of column x into buf, reading every XRes-th pixel. */
  method GatherColumn(buf: array<Pixel>, data: array<Pixel>, x: int, X: int, Y: int)
    requires buf != data && Y <= buf.Length && GridOk(data[..], X, Y) && 0 <= x < X
    modifies buf
    ensures buf[..Y] == ColumnOf(data[..], X, Y, x)
  {
    var y := 0;
    while y < Y
      invariant 0 <= y <= Y
      invariant forall j :: 0 <= j < y ==> buf[j] == ColumnOf(data[..], X, Y, x)[j]
    {
      GridIndex(y, x, X, Y);
      buf[y] := data[y * X + x];
      y := y + 1;
    }
  }

  /** Column x of a holds buf in rows 0 .. y - 1, and every other pixel is that of a0. */
  ghost predicate ScatteredUpTo(a: seq<Pixel>, a0: seq<Pixel>, buf: seq<Pixel>, x: int, X: int, y: int)
    requires X > 0 && |a| == |a0|
  {
    (forall k :: 0 <= k < |a| && k % X == x && k / X < y ==> k / X < |buf| && a[k] == buf[k / X]) &&
    (forall k :: 0 <= k < |a| && (k % X != x || k / X >= y) ==> a[k] == a0[k])
  }

  /** Writing buf[y] at row y of column x extends ScatteredUpTo by one row. */
  lemma ScatterStep(a: seq<Pixel>, a1: seq<Pixel>, a0: seq<Pixel>, buf: seq<Pixel>, x: int, X: int, Y: int, y: int)
    requires GridOk(a, X, Y) && |a0| == |a| && 0 <= x < X && 0 <= y < Y && y < |buf|
    requires 0 <= y * X + x < |a| && a1 == a[y * X + x := buf[y]]
    requires ScatteredUpTo(a, a0, buf, x, X, y)
    ensures ScatteredUpTo(a1, a0, buf, x, X, y + 1)
  {
    var i := y * X + x;
    GridIndex(y, x, X, Y);
    forall k | 0 <= k < |a1|
      ensures k % X == x && k / X < y + 1 ==> k / X < |buf| && a1[k] == buf[k / X]
      ensures k % X != x || k / X >= y + 1 ==> a1[k] == a0[k]
    {
      SameSlot(k, i, X);
    }
  }

  /** Two indices with the same row and column are the same. */
  lemma SameSlot(k: int, j: int, X: int)
    requires X > 0
    ensures k / X == j / X && k % X == j % X ==> k == j
  {
    assert k == X * (k / X) + k % X;
    assert j == X * (j / X) + j % X;
  }

  /** The copy of buf back into column x; the other columns keep their pixels. */
  method ScatterColumn(data: array<Pixel>, buf: array<Pixel>, x: int, X: int, Y: int)
    requires buf != data && Y <= buf.Length && GridOk(data[..], X, Y) && 0 <= x < X
    modifies data
    ensures forall k :: 0 <= k < data.Length && k % X == x ==> data[k] == buf[k / X]
    ensures forall k :: 0 <= k < data.Length && k % X != x ==> data[k] == old(data[k])
  {
    ghost var d0 := data[..];
    var y := 0;
    while y < Y
      invariant 0 <= y <= Y && |data[..]| == |d0|
      invariant ScatteredUpTo(data[..], d0, buf[..], x, X, y)
    {
      assert 0 <= y * X + x < data.Length by {
        GridIndex(y, x, X, Y);
      }
      ghost var a := data[..];
      data[y * X + x] := buf[y];
      ScatterStep(a, data[..], d0, buf[..], x, X, Y, y);
      y := y + 1;
    }
    ScatterDone(data[..], d0, buf[..], x, X, Y);
    forall k | 0 <= k < data.Length && k % X == x
      ensures data[k] == buf[k / X]
    {
      assert data[..][k] == buf[..][k / X];
    }
  }

  lemma ScatterDone(a: seq<Pixel>, a0: seq<Pixel>, buf: seq<Pixel>, x: int, X: int, Y: int)
    requires GridOk(a, X, Y) && |a0| == |a| && ScatteredUpTo(a, a0, buf, x, X, Y)
    ensures forall k :: 0 <= k < |a| && k % X == x ==> 0 <= k / X < |buf| && a[k] == buf[k / X]
    ensures forall k :: 0 <= k < |a| && k % X != x ==> a[k] == a0[k]
  {
    forall k | 0 <= k < |a|
      ensures k / X < Y
    {
      GridCell(k, X, Y);
    }
  }

  /** `order` times Blur1DBuffer from buf1 into buf2 and swap(buf1, buf2); the result ends up
      in the returned first buffer. */
  method PingPong(b1: array<Pixel>, b2: array<Pixel>, width: int, sizeFixed: int, mode: int, order: int)
    returns (buf1: array<Pixel>, buf2: array<Pixel>)
    requires b1 != b2 && width <= b1.Length && width <= b2.Length && 0 <= order
    requires WidthOk(width, mode) && KernelOk(sizeFixed) && (mode == 0 || mode == 1)
    modifies b1, b2
    ensures buf1 != buf2 && (buf1 == b1 || buf1 == b2) && (buf2 == b1 || buf2 == b2)
    ensures buf1[..width] == Passes(old(b1[..width]), sizeFixed, mode, order)
  {
    ghost var s := b1[..width];
    buf1, buf2 := b1, b2;
    var i := 0;
    while i < order
      invariant 0 <= i <= order
      invariant buf1 != buf2 && (buf1 == b1 || buf1 == b2) && (buf2 == b1 || buf2 == b2)
      invariant buf1[..width] == Passes(s, sizeFixed, mode, i)
    {
      ghost var cur := buf1[..width];
      Blur1DBuffer(buf2, buf1, width, sizeFixed, mode);
      assert buf2[..width] == BlurLine(cur, sizeFixed, mode) == Passes(s, sizeFixed, mode, i + 1);
      buf1, buf2 := buf2, buf1;
      i := i + 1;
    }
  }

  lemma InRow(k: int, X: int, y: int)
    requires X > 0 && k / X == y
    ensures y * X <= k < y * X + X && k % X == k - y * X
  {
    assert k == X * (k / X) + k % X;
  }

  /** Writing row y of a grid, in the terms of k / X and k % X. */
  lemma RowWritten(a: seq<Pixel>, a0: seq<Pixel>, row: seq<Pixel>, X: int, Y: int, y: int)
    requires GridOk(a, X, Y) && |a0| == |a| && |row| == X && 0 <= y < Y
    requires y * X + X <= |a| && a[y * X .. y * X + X] == row
    requires forall k :: 0 <= k < |a| && !(y * X <= k < y * X + X) ==> a[k] == a0[k]
    ensures forall k :: 0 <= k < |a| && k / X == y ==> 0 <= k % X < X && a[k] == row[k % X]
    ensures forall k :: 0 <= k < |a| && k / X != y ==> a[k] == a0[k]
  {
    forall k | 0 <= k < |a| && k / X == y
      ensures 0 <= k % X < X && a[k] == row[k % X]
    {
      InRow(k, X, y);
      assert a[k] == a[y * X .. y * X + X][k - y * X];
    }
    forall k | 0 <= k < |a| && k / X != y
      ensures a[k] == a0[k]
    {
      if y * X <= k < y * X + X {
        RowSlots(y * X, X, y);
      }
    }
  }

  /** One turn of the horizontal pass: row y of src through the buffers into row y of dst. */
  method BlurRow(dst: array<Pixel>, src: array<Pixel>, b1: array<Pixel>, b2: array<Pixel>, X: int, Y: int, y: int,
                 sizeFixed: int, mode: int, order: int, ghost d: seq<Pixel>)
    returns (buf1: array<Pixel>, buf2: array<Pixel>)
    requires GridOk(d, X, Y) && 0 <= y < Y && dst.Length == X * Y && src.Length == X * Y
    requires b1 != b2 && b1 != dst && b2 != dst && b1 != src && b2 != src
    requires X <= b1.Length && X <= b2.Length && 0 <= order
    requires WidthOk(X, mode) && KernelOk(sizeFixed) && (mode == 0 || mode == 1)
    requires forall k :: 0 <= k < X * Y && k / X == y ==> src[k] == d[k]
    modifies dst, b1, b2
    ensures buf1 != buf2 && (buf1 == b1 || buf1 == b2) && (buf2 == b1 || buf2 == b2)
    ensures forall k :: 0 <= k < X * Y && k / X == y ==>
      (0 <= k % X < X && dst[k] == Passes(RowOf(d, X, Y, y), sizeFixed, mode, order)[k % X])
    ensures forall k :: 0 <= k < X * Y && k / X != y ==> dst[k] == old(dst[k])
  {
    LoadRow(b1, src, X, Y, y, d);
    buf1, buf2 := PingPong(b1, b2, X, sizeFixed, mode, order);
    StoreRow(dst, buf1, X, Y, y);
  }

  /** Row y of src copied into the start of buf. */
  method LoadRow(buf: array<Pixel>, src: array<Pixel>, X: int, Y: int, y: int, ghost d: seq<Pixel>)
    requires GridOk(d, X, Y) && 0 <= y < Y && src.Length == X * Y && buf != src && X <= buf.Length
    requires forall k :: 0 <= k < X * Y && k / X == y ==> src[k] == d[k]
    modifies buf
    ensures buf[..X] == RowOf(d, X, Y, y)
  {
    RowBounds(y, X, Y);
    var k0 := y * X;
    assert src[k0..k0 + X] == RowOf(d, X, Y, y) by {
      RowSlots(k0, X, y);
    }
    CopyRun(buf, 0, src, k0, X);
    assert buf[..X] == buf[0..0 + X];
  }

  /** The start of buf copied into row y of dst; the other rows keep their pixels. */
  method StoreRow(dst: array<Pixel>, buf: array<Pixel>, X: int, Y: int, y: int)
    requires X > 0 && 0 <= y < Y && dst.Length == X * Y && buf != dst && X <= buf.Length
    modifies dst
    ensures forall k :: 0 <= k < X * Y && k / X == y ==> (0 <= k % X < X && dst[k] == buf[k % X])
    ensures forall k :: 0 <= k < X * Y && k / X != y ==> dst[k] == old(dst[k])
  {
    RowBounds(y, X, Y);
    ghost var before := dst[..];
    CopyRun(dst, y * X, buf, 0, X);
    RowWritten(dst[..], before, buf[..X], X, Y, y);
  }

  /** The horizontal pass of Blur on an X by Y texture: each row of src copied into buf1,
      blurred `order` times and copied into the same row of dst. src may be dst itself: row y
      is read before it is written, and no row is read after. */
  method RowPass(dst: array<Pixel>, src: array<Pixel>, b1: array<Pixel>, b2: array<Pixel>, X: int, Y: int,
                 sizeFixed: int, mode: int, order: int)
    returns (buf1: array<Pixel>, buf2: array<Pixel>)
    requires X > 0 && Y > 0 && dst.Length == X * Y && src.Length == X * Y
    requires b1 != b2 && b1 != dst && b2 != dst && b1 != src && b2 != src
    requires X <= b1.Length && X <= b2.Length && 0 <= order
    requires WidthOk(X, mode) && KernelOk(sizeFixed) && (mode == 0 || mode == 1)
    modifies dst, b1, b2
    ensures buf1 != buf2 && (buf1 == b1 || buf1 == b2) && (buf2 == b1 || buf2 == b2)
    ensures dst[..] == BlurRows(old(src[..]), X, Y, sizeFixed, mode, order)
  {
    ghost var d := src[..];
    ghost var r := BlurRows(d, X, Y, sizeFixed, mode, order);
    buf1, buf2 := b1, b2;
    forall k | 0 <= k < X * Y
      ensures k / X >= 0
    {
      GridCell(k, X, Y);
    }
    var y := 0;
    while y < Y
      invariant 0 <= y <= Y
      invariant buf1 != buf2 && (buf1 == b1 || buf1 == b2) && (buf2 == b1 || buf2 == b2)
      invariant forall k :: 0 <= k < X * Y && k / X < y ==> dst[k] == r[k]
      invariant forall k :: 0 <= k < X * Y && k / X >= y ==> src[k] == d[k]
    {
      buf1, buf2 := BlurRow(dst, src, buf1, buf2, X, Y, y, sizeFixed, mode, order, d);
      y := y + 1;
    }
    forall k | 0 <= k < X * Y
      ensures dst[k] == r[k]
    {
      GridCell(k, X, Y);
    }
    assert dst[..] == r;
  }

  /** One turn of the vertical pass: column x of src through the buffers into column x of dst. */
  method BlurColumn(dst: array<Pixel>, src: array<Pixel>, b1: array<Pixel>, b2: array<Pixel>, X: int, Y: int, x: int,
                    sizeFixed: int, mode: int, order: int, ghost d: seq<Pixel>)
    returns (buf1: array<Pixel>, buf2: array<Pixel>)
    requires GridOk(d, X, Y) && 0 <= x < X && dst.Length == X * Y && src.Length == X * Y
    requires b1 != b2 && b1 != dst && b2 != dst && b1 != src && b2 != src
    requires Y <= b1.Length && Y <= b2.Length && 0 <= order
    requires WidthOk(Y, mode) && KernelOk(sizeFixed) && (mode == 0 || mode == 1)
    requires ColumnOf(src[..], X, Y, x) == ColumnOf(d, X, Y, x)
    modifies dst, b1, b2
    ensures buf1 != buf2 && (buf1 == b1 || buf1 == b2) && (buf2 == b1 || buf2 == b2)
    ensures forall k :: 0 <= k < X * Y && k % X == x ==>
      (0 <= k / X < Y && dst[k] == Passes(ColumnOf(d, X, Y, x), sizeFixed, mode, order)[k / X])
    ensures forall k :: 0 <= k < X * Y && k % X != x ==> dst[k] == old(dst[k])
  {
    GatherColumn(b1, src, x, X, Y);
    buf1, buf2 := PingPong(b1, b2, Y, sizeFixed, mode, order);
    ghost var col := buf1[..Y];
    ScatterColumn(dst, buf1, x, X, Y);
    forall k | 0 <= k < X * Y && k % X == x
      ensures 0 <= k / X < Y && dst[k] == Passes(ColumnOf(d, X, Y, x), sizeFixed, mode, order)[k / X]
    {
      GridCell(k, X, Y);
      assert dst[k] == col[k / X];
    }
  }

  /** The vertical pass of Blur on an X by Y texture: each column of src gathered into buf1,
      blurred `order` times and scattered into the same column of dst. src may be dst itself. */
  method ColumnPass(dst: array<Pixel>, src: array<Pixel>, b1: array<Pixel>, b2: array<Pixel>, X: int, Y: int,
                    sizeFixed: int, mode: int, order: int)
    returns (buf1: array<Pixel>, buf2: array<Pixel>)
    requires X > 0 && Y > 0 && dst.Length == X * Y && src.Length == X * Y
    requires b1 != b2 && b1 != dst && b2 != dst && b1 != src && b2 != src
    requires Y <= b1.Length && Y <= b2.Length && 0 <= order
    requires WidthOk(Y, mode) && KernelOk(sizeFixed) && (mode == 0 || mode == 1)
    modifies dst, b1, b2
    ensures buf1 != buf2 && (buf1 == b1 || buf1 == b2) && (buf2 == b1 || buf2 == b2)
    ensures dst[..] == BlurColumns(old(src[..]), X, Y, sizeFixed, mode, order)
  {
    ghost var d := src[..];
    ghost var r := BlurColumns(d, X, Y, sizeFixed, mode, order);
    buf1, buf2 := b1, b2;
    var x := 0;
    while x < X
      invariant 0 <= x <= X
      invariant buf1 != buf2 && (buf1 == b1 || buf1 == b2) && (buf2 == b1 || buf2 == b2)
      invariant forall k :: 0 <= k < X * Y && k % X < x ==> dst[k] == r[k]
      invariant forall k :: 0 <= k < X * Y && k % X >= x ==> src[k] == d[k]
    {
      assert ColumnOf(src[..], X, Y, x) == ColumnOf(d, X, Y, x) by {
        forall y | 0 <= y < Y
          ensures ColumnOf(src[..], X, Y, x)[y] == ColumnOf(d, X, Y, x)[y]
        {
          GridIndex(y, x, X, Y);
        }
      }
      buf1, buf2 := BlurColumn(dst, src, buf1, buf2, X, Y, x, sizeFixed, mode, order, d);
      x := x + 1;
    }
    forall k | 0 <= k < X * Y
      ensures dst[k] == r[k]
    {
      GridCell(k, X, Y);
    }
    assert dst[..] == r;
  }

  /** Blur: `order` box-filter passes along each row, then along each column, with kernels
      sizePixX and sizePixY (26.6 fixed point, half the edge length); a plain copy when order
      is below 1 or neither kernel is wider than a pixel. dest may be inImg itself. */
  method Blur(dest: Texture, inImg: Texture, sizePixX: int, sizePixY: int, order: int, wrapMode: int)
    requires dest.Valid() && inImg.Valid() && dest.SameSize(inImg)
    requires dest == inImg || dest.Data != inImg.Data
    requires order >= 1 && (sizePixX > 32 || sizePixY > 32) ==> inImg.XRes > 0 && inImg.YRes > 0
    modifies dest, dest.Data
    ensures dest.Valid() && dest.XRes == old(inImg.XRes) && dest.YRes == old(inImg.YRes)
    ensures (AxisResOk(old(inImg.XRes), old(inImg.ShiftX), old(inImg.MinX));
             AxisResOk(old(inImg.YRes), old(inImg.ShiftY), old(inImg.MinY));
             dest.Data[..] == Blurred(old(inImg.Data[..]), old(inImg.XRes), old(inImg.YRes),
                                      sizePixX, sizePixY, order, wrapMode))
  {
    AxisResOk(inImg.XRes, inImg.ShiftX, inImg.MinX);
    AxisResOk(inImg.YRes, inImg.ShiftY, inImg.MinY);
    if order < 1 || (sizePixX <= 32 && sizePixY <= 32) {
      dest.Assign(inImg);
      return;
    }
    var X, Y := dest.XRes, dest.YRes;
    var bufSize := if X >= Y then X else Y;
    var buf1 := new Pixel[bufSize];
    var buf2 := new Pixel[bufSize];
    ghost var d := inImg.Data[..];
    var input := inImg.Data;
    if sizePixX > 32 {
      buf1, buf2 := RowPass(dest.Data, input, buf1, buf2, X, Y, sizePixX, ModeU(wrapMode), order);
      input := dest.Data;
    }
    if sizePixY > 32 {
      buf1, buf2 := ColumnPass(dest.Data, input, buf1, buf2, X, Y, sizePixY, ModeV(wrapMode), order);
    }
  }
}
