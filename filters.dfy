// The per-pixel filters of lib_ops/gentexture/filters.cpp: ColorMatrixTransform,
// CoordMatrixTransform, ColorRemap and CoordRemap. Each one walks the destination
// pixels in storage order and overwrites them; every method states the pixel it
// leaves at each position as a function of its inputs, and the lemmas below state
// what those per-pixel functions promise.
module Filters {
  import opened Helpers
  import opened Pixels
  import opened Textures

  /** A texture the samplers accept: consistent fields and at least one texel. */
  ghost predicate Sampleable(im: Image) {
    im.Valid() && im.XRes > 0 && im.YRes > 0
  }

  /** The loop shared by ColorMatrixTransform and ColorRemap: slot i of d becomes f of slot i
      of s, for i < n. d may be s: each input pixel is read just before its slot is written. */
  method MapPixels(d: array<Pixel>, s: array<Pixel>, n: int, f: Pixel -> Pixel)
    requires 0 <= n <= d.Length && n <= s.Length
    modifies d
    ensures forall i :: 0 <= i < n ==> d[i] == f(old(s[i]))
    ensures forall i :: n <= i < d.Length ==> d[i] == old(d[i])
  {
    var i := 0;
    while i < n
      invariant 0 <= i <= n
      invariant forall j :: 0 <= j < i ==> d[j] == f(old(s[j]))
      invariant forall j :: i <= j < n ==> s[j] == old(s[j])
      invariant forall j :: n <= j < d.Length ==> d[j] == old(d[j])
    {
      var p := s[i];
      d[i] := f(p);
      i := i + 1;
    }
  }

  // ---------------------------------------------------------------------
  // ColorMatrixTransform (filters.cpp:20-60)

  /** One row of the fixed-point matrix, m[i][j] = matrix[i][j] * 65536, applied to r, g, b, a. */
  datatype Row = Row(r: int, g: int, b: int, a: int)
  datatype Matrix = Matrix(r: Row, g: Row, b: Row, a: Row)

  /** 127.0 in 16.16 fixed point: the asserted bound on every matrix entry. */
  const MaxEntry: int := 127 * 0x10000

  predicate RowOk(w: Row) {
    -MaxEntry <= w.r <= MaxEntry && -MaxEntry <= w.g <= MaxEntry &&
    -MaxEntry <= w.b <= MaxEntry && -MaxEntry <= w.a <= MaxEntry
  }

  predicate MatrixOk(m: Matrix) {
    RowOk(m.r) && RowOk(m.g) && RowOk(m.b) && RowOk(m.a)
  }

  /** One output channel before clamping, the sum of `MulShift16(m[i][j], in[j])`; it fits an int. */
  function Dot(w: Row, p: Pixel): (v: int)
    requires RowOk(w)
    ensures -4 * 127 * 65535 <= v <= 4 * 127 * 65535
  {
    MulShift16Bounded(w.r, p.r);
    MulShift16Bounded(w.g, p.g);
    MulShift16Bounded(w.b, p.b);
    MulShift16Bounded(w.a, p.a);
    MulShift16(w.r, p.r) + MulShift16(w.g, p.g) + MulShift16(w.b, p.b) + MulShift16(w.a, p.a)
  }

  /** The pixel ColorMatrixTransform writes for input p. With clampPremult, alpha is clamped
      to [0, 65535] first and each colour channel to [0, alpha]; otherwise every channel is
      clamped to [0, 65535]. */
  function MatrixPixel(m: Matrix, p: Pixel, clampPremult: bool): (q: Pixel)
    requires MatrixOk(m)
    ensures clampPremult ==> Premultiplied(q)
  {
    var r, g, b, a := Dot(m.r, p), Dot(m.g, p), Dot(m.b, p), Dot(m.a, p);
    if clampPremult then
      var qa := Clamp(a, 0, 65535);
      Pixel(Clamp(r, 0, qa), Clamp(g, 0, qa), Clamp(b, 0, qa), qa)
    else
      Pixel(Clamp(r, 0, 65535), Clamp(g, 0, 65535), Clamp(b, 0, 65535), Clamp(a, 0, 65535))
  }

  /** v written into the range [lo, hi]: exactly when inside, pinned to the nearer bound outside. */
  predicate PinnedTo(q: int, v: int, lo: int, hi: int) {
    (lo <= v <= hi ==> q == v) && (v < lo ==> q == lo) && (v > hi ==> q == hi)
  }

  /** Clamping only acts on values outside the range: without clampPremult every channel is its
      row's dot product pinned to [0, 65535]; with it alpha is pinned to [0, 65535] and each
      colour channel to [0, q.a]. */
  lemma MatrixPixelClamps(m: Matrix, p: Pixel)
    requires MatrixOk(m)
    ensures var q := MatrixPixel(m, p, false);
      PinnedTo(q.r, Dot(m.r, p), 0, 65535) && PinnedTo(q.g, Dot(m.g, p), 0, 65535) &&
      PinnedTo(q.b, Dot(m.b, p), 0, 65535) && PinnedTo(q.a, Dot(m.a, p), 0, 65535)
    ensures var q := MatrixPixel(m, p, true);
      PinnedTo(q.a, Dot(m.a, p), 0, 65535) && PinnedTo(q.r, Dot(m.r, p), 0, q.a) &&
      PinnedTo(q.g, Dot(m.g, p), 0, q.a) && PinnedTo(q.b, Dot(m.b, p), 0, q.a)
  {
  }

  /** 1.0 on the diagonal, 0 elsewhere. */
  const Identity: Matrix := Matrix(Row(0x10000, 0, 0, 0), Row(0, 0x10000, 0, 0),
                                   Row(0, 0, 0x10000, 0), Row(0, 0, 0, 0x10000))

  /** The dot of a unit row picks out one channel exactly. */
  lemma UnitDot(p: Pixel)
    ensures Dot(Identity.r, p) == p.r && Dot(Identity.g, p) == p.g
    ensures Dot(Identity.b, p) == p.b && Dot(Identity.a, p) == p.a
  {
    MulShift16Unit(p.r);
    MulShift16Unit(p.g);
    MulShift16Unit(p.b);
    MulShift16Unit(p.a);
  }

  /** The identity matrix keeps every pixel; with clampPremult it keeps every premultiplied one. */
  lemma IdentityKeeps(p: Pixel)
    ensures MatrixPixel(Identity, p, false) == p
    ensures Premultiplied(p) ==> MatrixPixel(Identity, p, true) == p
  {
    UnitDot(p);
  }

  /** ColorMatrixTransform: pixel i of dest becomes MatrixPixel of pixel i of x. dest may be x:
      each input pixel is read before its slot is written. */
  method ColorMatrixTransform(dest: Texture, x: Texture, m: Matrix, clampPremult: bool)
    requires dest.Valid() && x.Valid() && dest.SameSize(x) && MatrixOk(m)
    modifies dest.Data
    ensures forall i :: 0 <= i < dest.NPixels ==>
      dest.Data[i] == MatrixPixel(m, old(x.Data[i]), clampPremult)
  {
    MapPixels(dest.Data, x.Data, dest.NPixels, p => MatrixPixel(m, p, clampPremult));
  }

  // ---------------------------------------------------------------------
  // CoordMatrixTransform (filters.cpp:62-93)

  /** One row of the coordinate matrix in 8.24 fixed point: the offset (the float product
      `matrix[i][3] * (1 << 24)` converted to int) and the steps per destination pixel along
      x and along y. */
  datatype Affine = Affine(ofs: int, ddx: int, ddy: int)

  /** Where pixel (x, y) samples along one axis: the affine map evaluated at the pixel, from
      the start `ofs + ((ddx + ddy) >> 1)`, half a step in from the origin. */
  function AffineAt(a: Affine, x: int, y: int): int {
    a.ofs + (a.ddx + a.ddy) / 2 + x * a.ddx + y * a.ddy
  }

  /** Moving one pixel right adds ddx, one row down adds ddy. */
  lemma AffineSteps(a: Affine, x: int, y: int)
    ensures AffineAt(a, x + 1, y) == AffineAt(a, x, y) + a.ddx
    ensures AffineAt(a, x, y + 1) == AffineAt(a, x, y) + a.ddy
  {
    assert (x + 1) * a.ddx == x * a.ddx + a.ddx;
    assert (y + 1) * a.ddy == y * a.ddy + a.ddy;
  }

  /** The identity transform (`1 << (24 - shift)` per pixel, no offset) samples texel centres. */
  lemma AffineIdentity(shift: nat, x: int, y: int)
    requires shift <= 23
    ensures AffineAt(Affine(0, Pow2(24 - shift), 0), x, y) == Centre(x, shift)
    ensures AffineAt(Affine(0, 0, Pow2(24 - shift)), x, y) == Centre(y, shift)
  {
    var m := Pow2(23 - shift);
    assert Pow2(24 - shift) == 2 * m;
    AffineIdentityW(m, x, y);
  }

  lemma AffineIdentityW(m: int, x: int, y: int)
    requires m > 0
    ensures AffineAt(Affine(0, 2 * m, 0), x, y) == (2 * x + 1) * m
    ensures AffineAt(Affine(0, 0, 2 * m), x, y) == (2 * y + 1) * m
  {
    assert x * (2 * m) == 2 * x * m;
    assert y * (2 * m) == 2 * y * m;
    assert (2 * m) / 2 == m;
  }

  /** So the identity CoordMatrixTransform of a texture onto one of its size copies it. */
  lemma IdentityTransformCopies(t: Image, i: int, j: int, mode: int)
    requires t.Valid() && 0 <= i < t.XRes && 0 <= j < t.YRes
    ensures t.SampleFiltered(AffineAt(Affine(0, Pow2(24 - t.ShiftX), 0), i, j),
                             AffineAt(Affine(0, 0, Pow2(24 - t.ShiftY)), i, j), mode) == t.Data[t.Index(i, j)]
  {
    AffineIdentity(t.ShiftX, i, j);
    AffineIdentity(t.ShiftY, i, j);
    t.SampleFilteredAtCentre(i, j, mode);
  }

  /** The inner loop of CoordMatrixTransform over row y, writing slots k0 .. k0 + X - 1 from the
      accumulators u and v, which start at the row's first pixel; sample is the source texture's
      SampleFiltered in the chosen mode. */
  method AffineRow(d: array<Pixel>, k0: int, X: int, y: int, u0: int, v0: int,
                   sample: (int, int) -> Pixel, U: Affine, V: Affine)
    requires 0 <= k0 && 0 <= X && k0 + X <= d.Length
    requires u0 == AffineAt(U, 0, y) && v0 == AffineAt(V, 0, y)
    modifies d
    ensures forall j :: k0 <= j < k0 + X ==>
      d[j] == sample(AffineAt(U, j - k0, y), AffineAt(V, j - k0, y))
    ensures forall j :: 0 <= j < k0 ==> d[j] == old(d[j])
  {
    var u, v := u0, v0;
    var x := 0;
    while x < X
      invariant 0 <= x <= X
      invariant u == AffineAt(U, x, y) && v == AffineAt(V, x, y)
      invariant forall j :: k0 <= j < k0 + x ==>
        d[j] == sample(AffineAt(U, j - k0, y), AffineAt(V, j - k0, y))
      invariant forall j :: 0 <= j < k0 ==> d[j] == old(d[j])
    {
      d[k0 + x] := sample(u, v);
      AffineSteps(U, x, y);
      AffineSteps(V, x, y);
      u, v := u + U.ddx, v + V.ddx;
      x := x + 1;
    }
  }

  /** The two loops of CoordMatrixTransform on a row-major buffer of X by Y pixels. */
  method AffineFill(d: array<Pixel>, X: int, Y: int, sample: (int, int) -> Pixel, U: Affine, V: Affine)
    requires 0 <= X && 0 <= Y && d.Length == X * Y
    modifies d
    ensures forall j :: 0 <= j < d.Length ==>
      d[j] == sample(AffineAt(U, j % X, j / X), AffineAt(V, j % X, j / X))
  {
    var u0 := U.ofs + (U.ddx + U.ddy) / 2;
    var v0 := V.ofs + (V.ddx + V.ddy) / 2;
    var k := 0;
    var y := 0;
    while y < Y
      invariant 0 <= y <= Y && k == y * X
      invariant u0 == AffineAt(U, 0, y) && v0 == AffineAt(V, 0, y)
      invariant forall j :: 0 <= j < k ==>
        d[j] == sample(AffineAt(U, j % X, j / X), AffineAt(V, j % X, j / X))
    {
      MulMonotone(X, y + 1, Y);
      assert k + X == (y + 1) * X;
      label L:
      AffineRow(d, k, X, y, u0, v0, sample, U, V);
      if X > 0 {
        RowSlots(k, X, y);
      }
      forall j | 0 <= j < k
        ensures d[j] == sample(AffineAt(U, j % X, j / X), AffineAt(V, j % X, j / X))
      {
        assert d[j] == old@L(d[j]);
      }
      forall j | k <= j < k + X
        ensures d[j] == sample(AffineAt(U, j % X, j / X), AffineAt(V, j % X, j / X))
      {
        assert j % X == j - k && j / X == y;
      }
      AffineSteps(U, 0, y);
      AffineSteps(V, 0, y);
      u0, v0 := u0 + U.ddy, v0 + V.ddy;
      k := k + X;
      y := y + 1;
    }
    assert k == d.Length;
  }

  /** CoordMatrixTransform: the u and v accumulators, advanced by ddx per pixel and ddy per
      row, sample dest pixel k, (k % XRes, k / XRes), at the closed-form affine coordinates.
      src is only read, so it is sampled as one value; it may not be dest. */
  method CoordMatrixTransform(dest: Texture, src: Texture, U: Affine, V: Affine, mode: int)
    requires dest.Valid() && Sampleable(src.View()) && dest.Data != src.Data
    modifies dest.Data
    ensures forall k :: 0 <= k < dest.NPixels ==>
      dest.Data[k] == src.View().SampleFiltered(AffineAt(U, k % dest.XRes, k / dest.XRes),
                                                AffineAt(V, k % dest.XRes, k / dest.XRes), mode)
  {
    var img := src.View();
    AffineFill(dest.Data, dest.XRes, dest.YRes, (u, v) => img.SampleFiltered(u, v, mode), U, V);
  }

  // ---------------------------------------------------------------------
  // ColorRemap (filters.cpp:95-134)

  /** `(c << 8) + ((c + 128) >> 8)`: an opaque channel as a gradient coordinate in [0, 1.0]. */
  function OpaqueIndex(c: Channel): (u: int)
    ensures 0 <= u <= TWO24
    ensures c == 0 ==> u == 0
    ensures c == 65535 ==> u == TWO24
  {
    c * 256 + (c + 128) / 256
  }

  /** The coordinate is the nearest integer to c / 65535 in 8.24 fixed point. */
  lemma OpaqueIndexRounds(c: Channel)
    ensures -32767 <= 65535 * OpaqueIndex(c) - c * TWO24 <= 32767
  {
    var q := (c + 128) / 256;
    assert c + 128 == 256 * q + (c + 128) % 256;
    assert 65535 * OpaqueIndex(c) - c * TWO24 == 256 * (256 * q - c) - q;
  }

  /** `(65535U << 16) / a`: 1 / alpha in 16.16 fixed point, scaled by 65535. */
  function InverseAlpha(a: Channel): (inv: U32)
    requires a > 0
    ensures 65535 * 0x10000 - a < a * inv <= 65535 * 0x10000
  {
    var n := 65535 * 0x10000;
    assert n == a * (n / a) + n % a;
    n / a
  }

  /** `UMulShift8(min(c, a), invA)`: the channel un-premultiplied by alpha and scaled to the
      gradient's 8.24 coordinate, that is 256 * 65535 * min(c, a) / a up to rounding; it stays
      inside the gradient and is 0 for a zero channel. */
  function PartialIndex(c: Channel, a: Channel): (u: int)
    requires a > 0
    ensures 0 <= u < TWO24
    ensures c == 0 ==> u == 0
    ensures Unpremultiplied(u, if c < a then c else a, a)
  {
    var m := if c < a then c else a;
    var inv := InverseAlpha(a);
    PartialIndexFacts(m, a, inv);
    UMulShift8(m, inv)
  }

  /** The range and rounding of `UMulShift8(m, invA)` for m <= a. */
  lemma PartialIndexFacts(m: Channel, a: Channel, inv: U32)
    requires 0 < a && m <= a && 65535 * 0x10000 - a < a * inv <= 65535 * 0x10000
    ensures 0 <= UMulShift8(m, inv) < TWO24
    ensures m == 0 ==> UMulShift8(m, inv) == 0
    ensures Unpremultiplied(UMulShift8(m, inv), m, a)
  {
    ProductBound(m, inv, a, inv);
    DivLess(m * inv + 0x80, 0x100, TWO24);
    UMulShift8Rounds(m, inv);
    UnpremultiplyBound(m, a, inv, UMulShift8(m, inv));
  }

  /** u is 256 * 65535 * m / a, the channel m un-premultiplied by alpha a in 8.24 units, up
      to the rounding of invA and of the final shift. */
  predicate Unpremultiplied(u: int, m: int, a: int) {
    m * (65535 * 0x10000) - (m + 0x80) * a < 0x100 * u * a <= m * (65535 * 0x10000) + 0x80 * a
  }

  /** From `-128 <= m*inv - 256*u < 128` and the range of a*inv to the bound on 256*u*a. */
  lemma UnpremultiplyBound(m: nat, a: nat, inv: nat, u: int)
    requires a > 0 && m <= a
    requires 65535 * 0x10000 - a < a * inv <= 65535 * 0x10000
    requires -0x80 <= m * inv - 0x100 * u < 0x80
    ensures Unpremultiplied(u, m, a)
  {
    var N, X, d := 65535 * 0x10000, a * inv, m * inv - 0x100 * u;
    assert 0x100 * u * a == m * X - d * a by {
      assert 0x100 * u == m * inv - d;
      assert (m * inv - d) * a == m * (a * inv) - d * a;
    }
    MulMonotone(a, -0x80, d);
    MulMonotone(a, d, 0x7F);
    MulMonotone(m, X, N);
    MulMonotone(m, N - a, X);
    assert m * (N - a) == m * N - m * a;
    assert (m + 0x80) * a == m * a + 0x80 * a;
  }

  /** `min(x + y + z, 65535)` */
  function Sum3(x: Channel, y: Channel, z: Channel): Channel {
    if x + y + z < 65535 then x + y + z else 65535
  }

  /** The pixel ColorRemap writes for input p: opaque pixels read the three gradients at their
      channels, partially transparent ones at their un-premultiplied channels and premultiply
      the sum again, fully transparent ones are kept. Alpha is always kept, and the result is
      premultiplied whenever alpha is not zero. */
  function RemapPixel(p: Pixel, mapR: Image, mapG: Image, mapB: Image): (q: Pixel)
    requires Sampleable(mapR) && Sampleable(mapG) && Sampleable(mapB)
    ensures q.a == p.a
    ensures p.a == 0 ==> q == p
    ensures p.a != 0 ==> Premultiplied(q)
  {
    if p.a == 65535 then
      var cr := mapR.SampleGradient(OpaqueIndex(p.r));
      var cg := mapG.SampleGradient(OpaqueIndex(p.g));
      var cb := mapB.SampleGradient(OpaqueIndex(p.b));
      Pixel(Sum3(cr.r, cg.r, cb.r), Sum3(cr.g, cg.g, cb.g), Sum3(cr.b, cg.b, cb.b), p.a)
    else if p.a != 0 then
      var cr := mapR.SampleGradient(PartialIndex(p.r, p.a));
      var cg := mapG.SampleGradient(PartialIndex(p.g, p.a));
      var cb := mapB.SampleGradient(PartialIndex(p.b, p.a));
      var r, g, b := Sum3(cr.r, cg.r, cb.r), Sum3(cr.g, cg.g, cb.g), Sum3(cr.b, cg.b, cb.b);
      MulIntensBelow(r, p.a);
      MulIntensBelow(g, p.a);
      MulIntensBelow(b, p.a);
      Pixel(MulIntens(r, p.a), MulIntens(g, p.a), MulIntens(b, p.a), p.a)
    else
      p
  }

  /** ColorRemap: pixel i of dest becomes RemapPixel of pixel i of inTex. dest may be inTex,
      but not one of the maps, which are sampled while dest is written. */
  method ColorRemap(dest: Texture, inTex: Texture, mapR: Texture, mapG: Texture, mapB: Texture)
    requires dest.Valid() && inTex.Valid() && dest.SameSize(inTex)
    requires Sampleable(mapR.View()) && Sampleable(mapG.View()) && Sampleable(mapB.View())
    requires dest.Data != mapR.Data && dest.Data != mapG.Data && dest.Data != mapB.Data
    modifies dest.Data
    ensures forall i :: 0 <= i < dest.NPixels ==>
      dest.Data[i] == RemapPixel(old(inTex.Data[i]), mapR.View(), mapG.View(), mapB.View())
  {
    var R, G, B := mapR.View(), mapG.View(), mapB.View();
    MapPixels(dest.Data, inTex.Data, dest.NPixels, p => RemapPixel(p, R, G, B));
  }

  // ---------------------------------------------------------------------
  // CoordRemap (filters.cpp:136-168)

  function Abs(x: int): int {
    if x < 0 then -x else x
  }

  /** A 16.16 product with a factor of at most 1.0 in magnitude is at most the other factor. */
  lemma ShiftedProductBound(s: int, v: int)
    requires -0x10000 <= v <= 0x10000
    ensures -Abs(s) <= (s * v + 0x8000) / 0x10000 <= Abs(s)
  {
    var A := Abs(s);
    AbsProductBound(s, v, A, 0x10000);
    var n := s * v + 0x8000;
    DivMonotone(n, A * 0x10000 + 0x8000, 0x10000);
    DivBracket(A * 0x10000 + 0x8000, 0x10000, A);
    DivMonotone(-A * 0x10000 + 0x8000, n, 0x10000);
    DivBracket(-A * 0x10000 + 0x8000, 0x10000, -A);
  }

  /** `MulShift16(scale, (c - 32768) * 2)`: the offset a remap channel asks for. 32768 asks for
      none, and no offset exceeds the scale in magnitude (strength 1.0 is one texture width). */
  function Displacement(scale: I32, c: Channel): (d: I32)
    ensures c == 32768 ==> d == 0
    ensures -TWO31 < scale ==> -Abs(scale) <= d <= Abs(scale)
  {
    var v := (c - 32768) * 2;
    assert -TWO31 < scale ==> -Abs(scale) <= MulShift16(scale, v) <= Abs(scale) by {
      if -TWO31 < scale {
        ShiftedProductBound(scale, v);
        MulShift16Rounds(scale, v);
      }
    }
    assert c == 32768 ==> MulShift16(scale, v) == 0 by {
      if c == 32768 {
        DivBracket(0x8000, 0x10000, 0);
      }
    }
    MulShift16(scale, v)
  }

  /** Where CoordRemap samples pixel x of a row (or row y): the texel centre
      `MinX + x * (1 << (24 - ShiftX))`, moved by the remap channel. */
  function RemapCoord(minC: int, step: int, x: int, scale: I32, c: Channel): int {
    minC + x * step + Displacement(scale, c)
  }

  /** A neutral remap channel samples exactly at the texel centre. */
  lemma RemapCoordNeutral(shift: nat, x: int, scale: I32)
    requires shift <= 23
    ensures RemapCoord(Pow2(23 - shift), Pow2(24 - shift), x, scale, 32768) == Centre(x, shift)
  {
    var m := Pow2(23 - shift);
    assert Pow2(24 - shift) == 2 * m;
    assert x * (2 * m) + m == (2 * x + 1) * m;
  }

  /** So remapping a texture by a neutral (32768) remap texture of its own size copies it. */
  lemma NeutralRemapCopies(t: Image, i: int, j: int, su: I32, sv: I32, mode: int)
    requires t.Valid() && 0 <= i < t.XRes && 0 <= j < t.YRes
    ensures t.SampleFiltered(RemapCoord(t.MinX, Pow2(24 - t.ShiftX), i, su, 32768),
                             RemapCoord(t.MinY, Pow2(24 - t.ShiftY), j, sv, 32768), mode)
            == t.Data[t.Index(i, j)]
  {
    MinIsHalfTexel(t.ShiftX);
    MinIsHalfTexel(t.ShiftY);
    RemapCoordNeutral(t.ShiftX, i, su);
    RemapCoordNeutral(t.ShiftY, j, sv);
    t.SampleFilteredAtCentre(i, j, mode);
  }

  /** The inner loop of CoordRemap over row y (slots k0 .. k0 + X - 1): u starts at minX and
      steps by stepU, v stays at the row's coordinate; remap pixel j is read before slot j is
      written, so r may be d itself. rem holds the remap pixels as they were at the start. */
  method RemapRow(d: array<Pixel>, r: array<Pixel>, ghost rem: seq<Pixel>, k0: int, X: int, y: int,
                  v: int, sample: (int, int) -> Pixel, minX: int, stepU: int, su: I32, sv: I32)
    requires r.Length == d.Length == |rem|
    requires 0 <= k0 && 0 <= X && k0 + X <= d.Length
    requires forall j :: k0 <= j < d.Length ==> r[j] == rem[j]
    modifies d
    ensures forall j :: k0 <= j < k0 + X ==>
      d[j] == sample(RemapCoord(minX, stepU, j - k0, su, rem[j].r), v + Displacement(sv, rem[j].g))
    ensures forall j :: 0 <= j < k0 ==> d[j] == old(d[j])
    ensures forall j :: k0 + X <= j < d.Length ==> r[j] == rem[j]
  {
    var u := minX;
    var x := 0;
    while x < X
      invariant 0 <= x <= X && u == minX + x * stepU
      invariant forall j :: k0 <= j < k0 + x ==>
        d[j] == sample(RemapCoord(minX, stepU, j - k0, su, rem[j].r), v + Displacement(sv, rem[j].g))
      invariant forall j :: 0 <= j < k0 ==> d[j] == old(d[j])
      invariant forall j :: k0 + x <= j < d.Length ==> r[j] == rem[j]
    {
      var rm := r[k0 + x];
      var dispU := u + Displacement(su, rm.r);
      var dispV := v + Displacement(sv, rm.g);
      d[k0 + x] := sample(dispU, dispV);
      u := u + stepU;
      x := x + 1;
    }
  }

  /** The two loops of CoordRemap on row-major buffers of X by Y pixels. */
  method RemapFill(d: array<Pixel>, r: array<Pixel>, X: int, Y: int, sample: (int, int) -> Pixel,
                   minX: int, minY: int, stepU: int, stepV: int, su: I32, sv: I32)
    requires r.Length == d.Length
    requires 0 <= X && 0 <= Y && d.Length == X * Y
    modifies d
    ensures forall j :: 0 <= j < d.Length ==>
      d[j] == sample(RemapCoord(minX, stepU, j % X, su, old(r[j]).r),
                                 RemapCoord(minY, stepV, j / X, sv, old(r[j]).g))
  {
    ghost var rem := r[..];
    var v0 := minY;
    var k := 0;
    var y := 0;
    while y < Y
      invariant 0 <= y <= Y && k == y * X && v0 == minY + y * stepV
      invariant forall j :: k <= j < d.Length ==> r[j] == rem[j]
      invariant forall j :: 0 <= j < k ==>
        d[j] == sample(RemapCoord(minX, stepU, j % X, su, rem[j].r),
                                   RemapCoord(minY, stepV, j / X, sv, rem[j].g))
    {
      MulMonotone(X, y + 1, Y);
      assert k + X == (y + 1) * X;
      label L:
      RemapRow(d, r, rem, k, X, y, v0, sample, minX, stepU, su, sv);
      if X > 0 {
        RowSlots(k, X, y);
      }
      forall j | 0 <= j < k
        ensures d[j] == sample(RemapCoord(minX, stepU, j % X, su, rem[j].r),
                                           RemapCoord(minY, stepV, j / X, sv, rem[j].g))
      {
        assert d[j] == old@L(d[j]);
      }
      forall j | k <= j < k + X
        ensures d[j] == sample(RemapCoord(minX, stepU, j % X, su, rem[j].r),
                                           RemapCoord(minY, stepV, j / X, sv, rem[j].g))
      {
        assert j % X == j - k && j / X == y;
      }
      v0 := v0 + stepV;
      k := k + X;
      y := y + 1;
    }
    assert k == d.Length;
  }

  /** RemapFill sampling one image in one filter mode. */
  method RemapImage(d: array<Pixel>, r: array<Pixel>, X: int, Y: int, img: Image,
                    minX: int, minY: int, stepU: int, stepV: int, su: I32, sv: I32, mode: int)
    requires Sampleable(img) && r.Length == d.Length
    requires 0 <= X && 0 <= Y && d.Length == X * Y
    modifies d
    ensures forall j :: 0 <= j < d.Length ==>
      d[j] == img.SampleFiltered(RemapCoord(minX, stepU, j % X, su, old(r[j]).r),
                                 RemapCoord(minY, stepV, j / X, sv, old(r[j]).g), mode)
  {
    var sample := (u, v) => img.SampleFiltered(u, v, mode);
    RemapFill(d, r, X, Y, sample, minX, minY, stepU, stepV, su, sv);
  }

  /** CoordRemap: dest pixel k, (k % XRes, k / XRes), samples src at its own texel centre
      displaced by the red (u) and green (v) channels of remap pixel k. The remap texture may
      be dest; src may not. */
  method CoordRemap(dest: Texture, src: Texture, remapTex: Texture, scaleU: I32, scaleV: I32, mode: int)
    requires dest.Valid() && remapTex.Valid() && dest.SameSize(remapTex)
    requires Sampleable(src.View()) && dest.Data != src.Data
    modifies dest.Data
    ensures forall k :: 0 <= k < dest.NPixels ==>
      dest.Data[k] == src.View().SampleFiltered(
        RemapCoord(dest.MinX, 2 * dest.MinX, k % dest.XRes, scaleU, old(remapTex.Data[k]).r),
        RemapCoord(dest.MinY, 2 * dest.MinY, k / dest.XRes, scaleV, old(remapTex.Data[k]).g), mode)
  {
    var img := src.View();
    var stepU := TexelStep(dest.XRes, dest.ShiftX, dest.MinX);
    var stepV := TexelStep(dest.YRes, dest.ShiftY, dest.MinY);
    ghost var rem := remapTex.Data[..];
    RemapImage(dest.Data, remapTex.Data, dest.XRes, dest.YRes, img, dest.MinX, dest.MinY,
               stepU, stepV, scaleU, scaleV, mode);
    forall k | 0 <= k < dest.NPixels
      ensures dest.Data[k] == src.View().SampleFiltered(
        RemapCoord(dest.MinX, 2 * dest.MinX, k % dest.XRes, scaleU, old(remapTex.Data[k]).r),
        RemapCoord(dest.MinY, 2 * dest.MinY, k / dest.XRes, scaleV, old(remapTex.Data[k]).g), mode)
    {
      assert old(remapTex.Data[k]) == rem[k];
    }
  }
}
