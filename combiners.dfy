// The combiners of lib_ktg/ktg/combiners.cpp: Ternary, Paste and LinearCombine. Each one
// walks destination pixels and overwrites them; every method states the pixel it leaves at
// each position as a function of its inputs, and the lemmas state what those per-pixel
// functions promise.
module Combiners {
  import opened Helpers
  import opened Pixels
  import opened Textures
  import opened Filters

  // ---------------------------------------------------------------------
  // Ternary (combiners.cpp:19-43)

  datatype TernaryOp = TernaryLerp | TernarySelect

  /** One channel of TernaryLerp: c1 weighted by 1 - t plus c2 weighted by t, stored in 16 bits. */
  function LerpByChannel(t: Channel, c1: Channel, c2: Channel): Channel {
    Trunc16(MulIntens(65535 - t, c1) + MulIntens(t, c2))
  }

  /** The pixel Ternary writes from the three input pixels: a lerp between in1 and in2 by the
      red channel of in3, or a choice between them at the threshold 0.5 of that channel. */
  function TernaryPixel(op: TernaryOp, in1: Pixel, in2: Pixel, in3: Pixel): Pixel {
    match op
    case TernaryLerp =>
      Pixel(LerpByChannel(in3.r, in1.r, in2.r), LerpByChannel(in3.r, in1.g, in2.g),
            LerpByChannel(in3.r, in1.b, in2.b), LerpByChannel(in3.r, in1.a, in2.a))
    case TernarySelect => if in3.r >= 32768 then in2 else in1
  }

  /** The two weights of a lerp channel add up to one: the sum never exceeds 65535, so the
      16-bit store keeps it; it lies between the endpoints and meets each at t = 0, t = 65535. */
  lemma LerpByChannelBetween(t: Channel, c1: Channel, c2: Channel)
    ensures MulIntens(65535 - t, c1) + MulIntens(t, c2) <= 65535
    ensures LerpByChannel(t, c1, c2) == MulIntens(65535 - t, c1) + MulIntens(t, c2)
    ensures ChannelBetween(LerpByChannel(t, c1, c2), c1, c2)
    ensures t == 0 ==> LerpByChannel(t, c1, c2) == c1
    ensures t == 65535 ==> LerpByChannel(t, c1, c2) == c2
  {
    var lo: Channel := if c1 <= c2 then c1 else c2;
    var hi: Channel := if c1 <= c2 then c2 else c1;
    MulIntensMonotone(65535 - t, c1, hi);
    MulIntensMonotone(t, c2, hi);
    MulIntensMonotone(65535 - t, lo, c1);
    MulIntensMonotone(t, lo, c2);
    MulIntensComplement(t, hi);
    MulIntensComplement(t, lo);
    MulIntensUnit(c1);
    MulIntensUnit(c2);
  }

  /** TernaryLerp by 0 is in1 and by 65535 is in2; every channel lies between the two inputs'
      channels, so lerping a pixel with itself gives it back whatever the weight. */
  lemma TernaryLerpLimits(in1: Pixel, in2: Pixel, in3: Pixel)
    ensures in3.r == 0 ==> TernaryPixel(TernaryLerp, in1, in2, in3) == in1
    ensures in3.r == 65535 ==> TernaryPixel(TernaryLerp, in1, in2, in3) == in2
    ensures var q := TernaryPixel(TernaryLerp, in1, in2, in3);
      ChannelBetween(q.r, in1.r, in2.r) && ChannelBetween(q.g, in1.g, in2.g) &&
      ChannelBetween(q.b, in1.b, in2.b) && ChannelBetween(q.a, in1.a, in2.a)
    ensures TernaryPixel(TernaryLerp, in1, in1, in3) == in1
  {
    LerpByChannelBetween(in3.r, in1.r, in2.r);
    LerpByChannelBetween(in3.r, in1.g, in2.g);
    LerpByChannelBetween(in3.r, in1.b, in2.b);
    LerpByChannelBetween(in3.r, in1.a, in2.a);
    LerpByChannelBetween(in3.r, in1.r, in1.r);
    LerpByChannelBetween(in3.r, in1.g, in1.g);
    LerpByChannelBetween(in3.r, in1.b, in1.b);
    LerpByChannelBetween(in3.r, in1.a, in1.a);
  }

  /** TernarySelect is TernaryLerp with the weight rounded to 0 or 65535. */
  lemma TernarySelectRounds(in1: Pixel, in2: Pixel, in3: Pixel)
    ensures TernaryPixel(TernarySelect, in1, in2, in3) ==
      TernaryPixel(TernaryLerp, in1, in2, in3.(r := if in3.r >= 32768 then 65535 else 0))
  {
    TernaryLerpLimits(in1, in2, in3.(r := if in3.r >= 32768 then 65535 else 0));
  }

  /** Ternary: pixel i of dest becomes TernaryPixel of pixel i of the three inputs. dest may be
      in1 or in2, since each channel reads its own input channel before it is written; for the
      lerp it is not in3, whose red channel weighs all four channels. */
  method Ternary(dest: Texture, in1Tex: Texture, in2Tex: Texture, in3Tex: Texture, op: TernaryOp)
    requires dest.Valid() && in1Tex.Valid() && in2Tex.Valid() && in3Tex.Valid()
    requires dest.SameSize(in1Tex) && dest.SameSize(in2Tex) && dest.SameSize(in3Tex)
    requires op == TernaryLerp ==> dest.Data != in3Tex.Data
    modifies dest.Data
    ensures forall i :: 0 <= i < dest.NPixels ==>
      dest.Data[i] == TernaryPixel(op, old(in1Tex.Data[i]), old(in2Tex.Data[i]), old(in3Tex.Data[i]))
  {
    var d, s1, s2, s3 := dest.Data, in1Tex.Data, in2Tex.Data, in3Tex.Data;
    var n := dest.NPixels;
    var i := 0;
    while i < n
      invariant 0 <= i <= n
      invariant forall j :: 0 <= j < i ==> d[j] == TernaryPixel(op, old(s1[j]), old(s2[j]), old(s3[j]))
      invariant forall j :: i <= j < n ==> s1[j] == old(s1[j]) && s2[j] == old(s2[j]) && s3[j] == old(s3[j])
    {
      var p1, p2, p3 := s1[i], s2[i], s3[i];
      d[i] := TernaryPixel(op, p1, p2, p3);
      i := i + 1;
    }
  }

  // ---------------------------------------------------------------------
  // The blend table of Paste (combiners.cpp:92-179): out is the destination pixel, in the
  // pasted one. Channels are stored in 16 bits, so a sum that could exceed 65535 goes
  // through Trunc16.

  datatype CombineOp =
    | CombineAdd | CombineSub | CombineMulC | CombineMin | CombineMax | CombineSetAlpha | CombinePreAlpha
    | CombineOver | CombineMultiply | CombineScreen | CombineDarken | CombineLighten

  function SubChannel(d: Channel, s: Channel): Channel {
    if d - s > 0 then d - s else 0
  }

  function MinChannel(d: Channel, s: Channel): Channel {
    if d <= s then d else s
  }

  function MaxChannel(d: Channel, s: Channel): Channel {
    if d >= s then d else s
  }

  /** CombineMultiply on a colour channel: d under 1 - sa, s under 1 - da, and their product. */
  function MultiplyChannel(d: Channel, da: Channel, s: Channel, sa: Channel): Channel {
    Trunc16(MulIntens(65535 - sa, d) + MulIntens(65535 - da, s) + MulIntens(s, d))
  }

  /** CombineDarken (pick = max) and CombineLighten (pick = min) on a colour channel:
      d + s minus the larger or smaller of s * da and d * sa. */
  function DarkenChannel(d: Channel, da: Channel, s: Channel, sa: Channel): Channel {
    var x, y := MulIntens(s, da), MulIntens(d, sa);
    Trunc16(d + s - (if x >= y then x else y))
  }

  function LightenChannel(d: Channel, da: Channel, s: Channel, sa: Channel): Channel {
    var x, y := MulIntens(s, da), MulIntens(d, sa);
    Trunc16(d + s - (if x <= y then x else y))
  }

  /** The pixel one case of the blend table leaves for destination o and pasted pixel i. The
      alpha-compositing modes all set alpha to o.a + i.a * (1 - o.a), the screen of the two. */
  function Blend(op: CombineOp, o: Pixel, i: Pixel): Pixel {
    match op
    case CombineAdd => CompositeAdd(o, i)
    case CombineSub => Pixel(SubChannel(o.r, i.r), SubChannel(o.g, i.g), SubChannel(o.b, i.b), SubChannel(o.a, i.a))
    case CombineMulC => CompositeMulC(o, i)
    case CombineMin => Pixel(MinChannel(o.r, i.r), MinChannel(o.g, i.g), MinChannel(o.b, i.b), MinChannel(o.a, i.a))
    case CombineMax => Pixel(MaxChannel(o.r, i.r), MaxChannel(o.g, i.g), MaxChannel(o.b, i.b), MaxChannel(o.a, i.a))
    case CombineSetAlpha => o.(a := i.r)
    case CombinePreAlpha => Pixel(MulChannel(o.r, i.r), MulChannel(o.g, i.r), MulChannel(o.b, i.r), i.g)
    case CombineOver =>
      Pixel(ROverChannel(o.r, i.r, i.a), ROverChannel(o.g, i.g, i.a), ROverChannel(o.b, i.b, i.a),
            ScreenChannel(o.a, i.a))
    case CombineMultiply =>
      Pixel(MultiplyChannel(o.r, o.a, i.r, i.a), MultiplyChannel(o.g, o.a, i.g, i.a),
            MultiplyChannel(o.b, o.a, i.b, i.a), ScreenChannel(o.a, i.a))
    case CombineScreen => CompositeScreen(o, i)
    case CombineDarken =>
      Pixel(DarkenChannel(o.r, o.a, i.r, i.a), DarkenChannel(o.g, o.a, i.g, i.a),
            DarkenChannel(o.b, o.a, i.b, i.a), ScreenChannel(o.a, i.a))
    case CombineLighten =>
      Pixel(LightenChannel(o.r, o.a, i.r, i.a), LightenChannel(o.g, o.a, i.g, i.a),
            LightenChannel(o.b, o.a, i.b, i.a), ScreenChannel(o.a, i.a))
  }

  /** Add saturates at 65535 and Sub at 0; Sub undoes Add whenever the sum did not saturate, and
      Add after Sub gives the channel-wise maximum. */
  lemma AddSubInverse(o: Pixel, i: Pixel)
    ensures var q := Blend(CombineSub, o, i);
      q.r == (if o.r >= i.r then o.r - i.r else 0) && q.g == (if o.g >= i.g then o.g - i.g else 0) &&
      q.b == (if o.b >= i.b then o.b - i.b else 0) && q.a == (if o.a >= i.a then o.a - i.a else 0)
    ensures o.r + i.r <= 65535 && o.g + i.g <= 65535 && o.b + i.b <= 65535 && o.a + i.a <= 65535 ==>
      Blend(CombineSub, Blend(CombineAdd, o, i), i) == o
    ensures Blend(CombineAdd, Blend(CombineSub, o, i), i) == Blend(CombineMax, o, i)
  {
    CompositeAddSaturates(o, i);
    CompositeAddSaturates(Blend(CombineSub, o, i), i);
  }

  /** Min and Max work channel by channel: each gives a bound of both pixels, they are
      symmetric, and each absorbs the other. */
  lemma MinMaxLattice(o: Pixel, i: Pixel)
    ensures var m := Blend(CombineMin, o, i);
      m.r <= o.r && m.r <= i.r && m.g <= o.g && m.g <= i.g && m.b <= o.b && m.b <= i.b && m.a <= o.a && m.a <= i.a
    ensures var m := Blend(CombineMax, o, i);
      m.r >= o.r && m.r >= i.r && m.g >= o.g && m.g >= i.g && m.b >= o.b && m.b >= i.b && m.a >= o.a && m.a >= i.a
    ensures Blend(CombineMin, o, i) == Blend(CombineMin, i, o) && Blend(CombineMax, o, i) == Blend(CombineMax, i, o)
    ensures Blend(CombineMin, o, Blend(CombineMax, o, i)) == o && Blend(CombineMax, o, Blend(CombineMin, o, i)) == o
  {
  }

  /** SetAlpha replaces only alpha, by the pasted red channel. PreAlpha scales the colour by the
      pasted red channel and takes alpha from the pasted green channel (not red); with a white
      red channel it is exactly SetAlpha from green. */
  lemma AlphaOps(o: Pixel, i: Pixel)
    ensures var q := Blend(CombineSetAlpha, o, i); q.r == o.r && q.g == o.g && q.b == o.b && q.a == i.r
    ensures var q := Blend(CombinePreAlpha, o, i); q.r <= o.r && q.g <= o.g && q.b <= o.b && q.a == i.g
    ensures i.r == 65535 ==> Blend(CombinePreAlpha, o, i) == Blend(CombineSetAlpha, o, i.(r := i.g))
  {
    MulChannelRounds(o.r, i.r);
    MulChannelRounds(o.g, i.r);
    MulChannelRounds(o.b, i.r);
    MulIntensUnit(o.r);
    MulIntensUnit(o.g);
    MulIntensUnit(o.b);
  }

  /** The alpha the compositing modes write, o.a + i.a * (1 - o.a), is the same as the alpha of
      i over o. */
  lemma ScreenIsOverAlpha(da: Channel, sa: Channel)
    ensures ScreenChannel(da, sa) == ROverChannel(da, sa, sa)
  {
    ScreenChannelFormula(da, sa);
    MulIntensBelow(65535 - sa, da);
    MulIntensComplement(sa, da);
    MulIntensCommutes(sa, da);
  }

  /** CombineOver is Pixel::CompositeROver: the pasted pixel over the destination. So an opaque
      pasted pixel replaces the destination, transparent black leaves it, and two premultiplied
      pixels give a premultiplied one. */
  lemma OverIsCompositeROver(o: Pixel, i: Pixel)
    ensures Blend(CombineOver, o, i) == CompositeROver(o, i)
    ensures i.a == 65535 ==> Blend(CombineOver, o, i) == i
    ensures Blend(CombineOver, o, Black) == o
    ensures Premultiplied(o) && Premultiplied(i) ==> Premultiplied(Blend(CombineOver, o, i))
  {
    ScreenIsOverAlpha(o.a, i.a);
    ScreenIsOverAlpha(o.a, 0);
    assert Blend(CombineOver, o, Black) == CompositeROver(o, Black);
    CompositeROverLimits(o, i);
    if Premultiplied(o) && Premultiplied(i) {
      CompositeROverPremultiplied(o, i);
    }
  }

  /** On two opaque pixels Multiply is the channel product MulC, Darken the channel minimum and
      Lighten the channel maximum, and the result stays opaque. */
  lemma OpaqueBlends(o: Pixel, i: Pixel)
    requires o.a == 65535 && i.a == 65535
    ensures Blend(CombineMultiply, o, i) == CompositeMulC(o, i)
    ensures Blend(CombineDarken, o, i) == Blend(CombineMin, o, i)
    ensures Blend(CombineLighten, o, i) == Blend(CombineMax, o, i)
  {
    OpaqueMultiply(o, i);
    OpaqueDarken(o, i);
    OpaqueLighten(o, i);
  }

  lemma OpaqueMultiply(o: Pixel, i: Pixel)
    requires o.a == 65535 && i.a == 65535
    ensures Blend(CombineMultiply, o, i) == CompositeMulC(o, i)
  {
    // the two sides, unfolded before the channel facts enter the context
    assert Blend(CombineMultiply, o, i) == Pixel(MultiplyChannel(o.r, o.a, i.r, i.a), MultiplyChannel(o.g, o.a, i.g, i.a), MultiplyChannel(o.b, o.a, i.b, i.a), ScreenChannel(o.a, i.a));
    assert CompositeMulC(o, i) == Pixel(MulChannel(o.r, i.r), MulChannel(o.g, i.g), MulChannel(o.b, i.b), MulChannel(o.a, i.a));
    OpaqueChannel(o.r, o.a, i.r, i.a);
    OpaqueChannel(o.g, o.a, i.g, i.a);
    OpaqueChannel(o.b, o.a, i.b, i.a);
    OpaqueAlpha(o.a, i.a);
  }

  lemma OpaqueDarken(o: Pixel, i: Pixel)
    requires o.a == 65535 && i.a == 65535
    ensures Blend(CombineDarken, o, i) == Blend(CombineMin, o, i)
  {
    // the two sides, unfolded before the channel facts enter the context
    assert Blend(CombineDarken, o, i) == Pixel(DarkenChannel(o.r, o.a, i.r, i.a), DarkenChannel(o.g, o.a, i.g, i.a), DarkenChannel(o.b, o.a, i.b, i.a), ScreenChannel(o.a, i.a));
    assert Blend(CombineMin, o, i) == Pixel(MinChannel(o.r, i.r), MinChannel(o.g, i.g), MinChannel(o.b, i.b), MinChannel(o.a, i.a));
    OpaqueChannel(o.r, o.a, i.r, i.a);
    OpaqueChannel(o.g, o.a, i.g, i.a);
    OpaqueChannel(o.b, o.a, i.b, i.a);
    OpaqueAlpha(o.a, i.a);
  }

  lemma OpaqueLighten(o: Pixel, i: Pixel)
    requires o.a == 65535 && i.a == 65535
    ensures Blend(CombineLighten, o, i) == Blend(CombineMax, o, i)
  {
    // the two sides, unfolded before the channel facts enter the context
    assert Blend(CombineLighten, o, i) == Pixel(LightenChannel(o.r, o.a, i.r, i.a), LightenChannel(o.g, o.a, i.g, i.a), LightenChannel(o.b, o.a, i.b, i.a), ScreenChannel(o.a, i.a));
    assert Blend(CombineMax, o, i) == Pixel(MaxChannel(o.r, i.r), MaxChannel(o.g, i.g), MaxChannel(o.b, i.b), MaxChannel(o.a, i.a));
    OpaqueChannel(o.r, o.a, i.r, i.a);
    OpaqueChannel(o.g, o.a, i.g, i.a);
    OpaqueChannel(o.b, o.a, i.b, i.a);
    OpaqueAlpha(o.a, i.a);
  }

  lemma OpaqueChannel(d: Channel, da: Channel, s: Channel, sa: Channel)
    requires da == 65535 && sa == 65535
    ensures MultiplyChannel(d, da, s, sa) == MulChannel(d, s)
    ensures DarkenChannel(d, da, s, sa) == MinChannel(d, s)
    ensures LightenChannel(d, da, s, sa) == MaxChannel(d, s)
  {
    MulIntensUnit(d);
    MulIntensUnit(s);
    MulIntensCommutes(s, d);
    assert MulIntens(65535 - sa, d) == 0 && MulIntens(65535 - da, s) == 0;
  }

  lemma OpaqueAlpha(da: Channel, sa: Channel)
    requires da == 65535 && sa == 65535
    ensures ScreenChannel(da, sa) == 65535 && MulChannel(da, sa) == 65535
  {
    MulIntensUnit(da);
    assert MulIntens(sa, 65535 - da) == 0;
  }

  /** Pasting transparent black changes nothing in every mode that adds or composites; in Min
      it gives black and in MulC black. */
  lemma BlendBlack(o: Pixel)
    ensures Blend(CombineAdd, o, Black) == o && Blend(CombineSub, o, Black) == o
    ensures Blend(CombineMax, o, Black) == o && Blend(CombineMin, o, Black) == Black
    ensures Blend(CombineOver, o, Black) == o && Blend(CombineScreen, o, Black) == o
    ensures Blend(CombineMultiply, o, Black) == o
    ensures Blend(CombineDarken, o, Black) == o && Blend(CombineLighten, o, Black) == o
  {
    BlackChannel(o.r, o.a);
    BlackChannel(o.g, o.a);
    BlackChannel(o.b, o.a);
    BlackChannel(o.a, o.a);
    CompositeAddSaturates(o, Black);
    OverIsCompositeROver(o, Black);
  }

  lemma BlackChannel(d: Channel, da: Channel)
    ensures MultiplyChannel(d, da, 0, 0) == d
    ensures DarkenChannel(d, da, 0, 0) == d && LightenChannel(d, da, 0, 0) == d
    ensures ScreenChannel(d, 0) == d
  {
    MulIntensUnit(d);
    MulIntensUnit(da);
    MulIntensUnit(65535 - da);
    MulIntensUnit(65535 - d);
  }

  // ---------------------------------------------------------------------
  // Paste (combiners.cpp:45-190). The bounding rectangle and the map from destination pixels
  // to 8.24 coordinates of the pasted texture are computed in floating point from the origin
  // and the two axis vectors; they enter the model as the integers the source derives.

  /** A rectangle of pixels, both corners included. */
  datatype Rect = Rect(x0: int, y0: int, x1: int, y1: int)

  predicate InRect(r: Rect, x: int, y: int) {
    r.x0 <= x <= r.x1 && r.y0 <= y <= r.y1
  }

  /** `max(0, minX)` .. `min(XRes - 1, maxX)` and the same on y: the bounding rectangle
      clipped to the texture. */
  function ClipRect(raw: Rect, xres: int, yres: int): (r: Rect)
    ensures 0 <= r.x0 && 0 <= r.y0 && r.x1 < xres && r.y1 < yres
    ensures forall x, y :: InRect(r, x, y) <==> InRect(raw, x, y) && 0 <= x < xres && 0 <= y < yres
  {
    Rect(if raw.x0 > 0 then raw.x0 else 0, if raw.y0 > 0 then raw.y0 else 0,
         if raw.x1 < xres - 1 then raw.x1 else xres - 1, if raw.y1 < yres - 1 then raw.y1 else yres - 1)
  }

  /** u0, v0 at the rectangle's first pixel and the steps of u and v per pixel and per row. */
  datatype PasteMap = PasteMap(u0: int, v0: int, dudx: int, dvdx: int, dudy: int, dvdy: int)

  /** The u coordinate the accumulators hold at pixel (x, y) of the clipped rectangle r. */
  function PasteU(m: PasteMap, r: Rect, x: int, y: int): int {
    m.u0 + (x - r.x0) * m.dudx + (y - r.y0) * m.dudy
  }

  function PasteV(m: PasteMap, r: Rect, x: int, y: int): int {
    m.v0 + (x - r.x0) * m.dvdx + (y - r.y0) * m.dvdy
  }

  /** `ClampU | ClampV | ((mode & 1) ? FilterBilinear : FilterNearest)` */
  function PasteMode(mode: int): (f: int)
    ensures ClampsU(f) && ClampsV(f) && (FiltersBilinear(f) <==> mode % 2 == 1)
  {
    if mode % 2 == 1 then 7 else 3
  }

  /** A texture's SampleFiltered in one filter mode, as a function of the coordinates. */
  function Sampler(img: Image, filterMode: int): (int, int) -> Pixel
    requires Sampleable(img)
  {
    (u, v) => img.SampleFiltered(u, v, filterMode)
  }

  /** One case of the blend table as a function of the two pixels. */
  function Blender(op: CombineOp): (Pixel, Pixel) -> Pixel {
    (o, i) => Blend(op, o, i)
  }

  /** One pixel of the rectangle: blended with the pasted texture where (u, v) falls inside
      [0, 1) x [0, 1), left alone elsewhere. */
  function PasteAt(blend: (Pixel, Pixel) -> Pixel, o: Pixel, sample: (int, int) -> Pixel, u: int, v: int): Pixel {
    if 0 <= u < TWO24 && 0 <= v < TWO24 then blend(o, sample(u, v)) else o
  }

  /** The pixel Paste leaves at (x, y) over the background pixel o. */
  function PastePixel(blend: (Pixel, Pixel) -> Pixel, o: Pixel, sample: (int, int) -> Pixel, r: Rect, m: PasteMap,
                      x: int, y: int): Pixel {
    if InRect(r, x, y) then PasteAt(blend, o, sample, PasteU(m, r, x, y), PasteV(m, r, x, y)) else o
  }

  /** The rectangle's pixels, taken in order, step u and v by the per-pixel and per-row deltas
      the loops add. */
  lemma PasteSteps(m: PasteMap, r: Rect, x: int, y: int)
    ensures PasteU(m, r, x + 1, y) == PasteU(m, r, x, y) + m.dudx && PasteV(m, r, x + 1, y) == PasteV(m, r, x, y) + m.dvdx
    ensures PasteU(m, r, x, y + 1) == PasteU(m, r, x, y) + m.dudy && PasteV(m, r, x, y + 1) == PasteV(m, r, x, y) + m.dvdy
  {
    assert (x + 1 - r.x0) * m.dudx == (x - r.x0) * m.dudx + m.dudx;
    assert (x + 1 - r.x0) * m.dvdx == (x - r.x0) * m.dvdx + m.dvdx;
    assert (y + 1 - r.y0) * m.dudy == (y - r.y0) * m.dudy + m.dudy;
    assert (y + 1 - r.y0) * m.dvdy == (y - r.y0) * m.dvdy + m.dvdy;
  }

  /** Pasting a texture onto one of its size with the identity map (u0 = MinX and one texel per
      pixel) blends each background pixel with the pasted texel at the same place, in either
      filter mode. */
  lemma PasteIdentity(img: Image, op: CombineOp, o: Pixel, x: int, y: int, mode: int)
    requires Sampleable(img) && 0 <= x < img.XRes && 0 <= y < img.YRes
    ensures PastePixel(Blender(op), o, Sampler(img, PasteMode(mode)), Rect(0, 0, img.XRes - 1, img.YRes - 1),
                       PasteMap(img.MinX, img.MinY, 2 * img.MinX, 0, 0, 2 * img.MinY), x, y) ==
            Blend(op, o, img.Data[img.Index(x, y)])
  {
    var r := Rect(0, 0, img.XRes - 1, img.YRes - 1);
    var m := PasteMap(img.MinX, img.MinY, 2 * img.MinX, 0, 0, 2 * img.MinY);
    CentreOfStep(img.MinX, x);
    CentreOfStep(img.MinY, y);
    assert PasteU(m, r, x, y) == (2 * x + 1) * img.MinX;
    assert PasteV(m, r, x, y) == (2 * y + 1) * img.MinY;
    MinIsHalfTexel(img.ShiftX);
    MinIsHalfTexel(img.ShiftY);
    CentreInside(x, img.ShiftX);
    CentreInside(y, img.ShiftY);
    img.SampleFilteredAtCentre(x, y, PasteMode(mode));
  }

  lemma CentreOfStep(mn: int, x: int)
    ensures mn + (x - 0) * (2 * mn) + 0 == (2 * x + 1) * mn
  {
    assert (x - 0) * (2 * mn) == 2 * x * mn;
  }

  /** Pasting in Over mode where the pasted pixel is opaque replaces the background by it. */
  lemma PasteOverOpaque(o: Pixel, sample: (int, int) -> Pixel, r: Rect, m: PasteMap, x: int, y: int)
    requires InRect(r, x, y)
    requires 0 <= PasteU(m, r, x, y) < TWO24 && 0 <= PasteV(m, r, x, y) < TWO24
    requires sample(PasteU(m, r, x, y), PasteV(m, r, x, y)).a == 65535
    ensures PastePixel(Blender(CombineOver), o, sample, r, m, x, y) == sample(PasteU(m, r, x, y), PasteV(m, r, x, y))
  {
    OverIsCompositeROver(o, sample(PasteU(m, r, x, y), PasteV(m, r, x, y)));
  }

  /** The inner loop: slots k0 .. k0 + n - 1 are pasted with u and v starting at u0, v0 and
      advancing by dudx, dvdx. */
  method PasteRow(d: array<Pixel>, k0: int, n: int, blend: (Pixel, Pixel) -> Pixel, sample: (int, int) -> Pixel,
                  u0: int, v0: int, dudx: int, dvdx: int)
    requires 0 <= k0 && 0 <= n && k0 + n <= d.Length
    modifies d
    ensures forall j :: k0 <= j < k0 + n ==>
      d[j] == PasteAt(blend, old(d[j]), sample, u0 + (j - k0) * dudx, v0 + (j - k0) * dvdx)
    ensures forall j :: 0 <= j < d.Length && !(k0 <= j < k0 + n) ==> d[j] == old(d[j])
  {
    var u, v := u0, v0;
    var x := 0;
    while x < n
      invariant 0 <= x <= n
      invariant u == u0 + x * dudx && v == v0 + x * dvdx
      invariant forall j :: k0 <= j < k0 + x ==>
        d[j] == PasteAt(blend, old(d[j]), sample, u0 + (j - k0) * dudx, v0 + (j - k0) * dvdx)
      invariant forall j :: 0 <= j < d.Length && !(k0 <= j < k0 + x) ==> d[j] == old(d[j])
    {
      var o := d[k0 + x];
      d[k0 + x] := PasteAt(blend, o, sample, u, v);
      assert (x + 1) * dudx == x * dudx + dudx && (x + 1) * dvdx == x * dvdx + dvdx;
      u, v := u + dudx, v + dvdx;
      x := x + 1;
    }
  }

  /** Slot k holds its pasted pixel if its row is before row, and the background otherwise. */
  predicate SlotPasted(a: seq<Pixel>, bg: seq<Pixel>, X: int, blend: (Pixel, Pixel) -> Pixel, sample: (int, int) -> Pixel,
                       r: Rect, m: PasteMap, row: int, k: int)
    requires X > 0 && |a| == |bg| && 0 <= k < |a|
  {
    a[k] == (if k / X < row then PastePixel(blend, bg[k], sample, r, m, k % X, k / X) else bg[k])
  }

  predicate RowsPasted(a: seq<Pixel>, bg: seq<Pixel>, X: int, blend: (Pixel, Pixel) -> Pixel, sample: (int, int) -> Pixel,
                       r: Rect, m: PasteMap, row: int)
    requires X > 0
  {
    |a| == |bg| && forall k :: 0 <= k < |a| ==> SlotPasted(a, bg, X, blend, sample, r, m, row, k)
  }

  /** Pasting the rectangle's part of row y, slots base + x0 .. base + x1 with base = y * X,
      takes the rows before y to the rows before y + 1. */
  lemma PasteRowStep(a: seq<Pixel>, a0: seq<Pixel>, bg: seq<Pixel>, X: int, Y: int, blend: (Pixel, Pixel) -> Pixel,
                     sample: (int, int) -> Pixel, r: Rect, m: PasteMap, y: int, base: int)
    requires X > 0 && |a| == |a0| == X * Y && 0 <= r.x0 <= r.x1 < X && 0 <= y < Y && r.y0 <= y <= r.y1
    requires base == y * X && 0 <= base && base + X <= X * Y
    requires RowsPasted(a0, bg, X, blend, sample, r, m, y)
    requires forall j :: base + r.x0 <= j <= base + r.x1 ==>
      a[j] == PasteAt(blend, a0[j], sample, PasteU(m, r, r.x0, y) + (j - (base + r.x0)) * m.dudx,
                      PasteV(m, r, r.x0, y) + (j - (base + r.x0)) * m.dvdx)
    requires forall j :: 0 <= j < |a| && !(base + r.x0 <= j <= base + r.x1) ==> a[j] == a0[j]
    ensures RowsPasted(a, bg, X, blend, sample, r, m, y + 1)
  {
    var next := y + 1;
    forall k | 0 <= k < |a|
      ensures SlotPasted(a, bg, X, blend, sample, r, m, next, k)
    {
      PasteSlotStep(a, a0, bg, X, Y, blend, sample, r, m, y, base, k);
    }
  }

  lemma PasteSlotStep(a: seq<Pixel>, a0: seq<Pixel>, bg: seq<Pixel>, X: int, Y: int, blend: (Pixel, Pixel) -> Pixel,
                      sample: (int, int) -> Pixel, r: Rect, m: PasteMap, y: int, base: int, k: int)
    requires X > 0 && |a| == |a0| == |bg| == X * Y && 0 <= r.x0 <= r.x1 < X && 0 <= y < Y && r.y0 <= y <= r.y1
    requires base == y * X && 0 <= base && base + X <= X * Y && 0 <= k < |a|
    requires SlotPasted(a0, bg, X, blend, sample, r, m, y, k)
    requires base + r.x0 <= k <= base + r.x1 ==>
      a[k] == PasteAt(blend, a0[k], sample, PasteU(m, r, r.x0, y) + (k - (base + r.x0)) * m.dudx,
                      PasteV(m, r, r.x0, y) + (k - (base + r.x0)) * m.dvdx)
    requires !(base + r.x0 <= k <= base + r.x1) ==> a[k] == a0[k]
    ensures SlotPasted(a, bg, X, blend, sample, r, m, y + 1, k)
  {
    RowOrder(k, X, Y, y, base);
    var x := k % X;
    if k / X == y && r.x0 <= x <= r.x1 {
      assert k - (base + r.x0) == x - r.x0;
      assert PasteU(m, r, x, y) == PasteU(m, r, r.x0, y) + (x - r.x0) * m.dudx;
      assert PasteV(m, r, x, y) == PasteV(m, r, r.x0, y) + (x - r.x0) * m.dvdx;
    }
  }

  /** Where slot k lies relative to row y, which starts at slot base. */
  lemma RowOrder(k: int, X: int, Y: int, y: int, base: int)
    requires X > 0 && 0 <= k < X * Y && base == y * X
    ensures 0 <= k % X < X
    ensures k / X < y ==> k < base
    ensures k / X > y ==> k >= base + X
    ensures k / X == y ==> k == base + k % X
  {
    GridCell(k, X, Y);
    var q, x := k / X, k % X;
    assert k == q * X + x;
    if q < y {
      MulMonotone(X, q + 1, y);
      assert X * (q + 1) == q * X + X;
    } else if q > y {
      MulMonotone(X, y + 1, q);
      assert X * (y + 1) == base + X;
    }
  }

  /** The two loops of Paste over the clipped rectangle r of an X by Y buffer. */
  method PasteRegion(d: array<Pixel>, X: int, Y: int, blend: (Pixel, Pixel) -> Pixel, sample: (int, int) -> Pixel,
                     r: Rect, m: PasteMap)
    requires X > 0 && Y >= 0 && d.Length == X * Y
    requires 0 <= r.x0 && r.x1 < X && 0 <= r.y0 && r.y1 < Y
    modifies d
    ensures RowsPasted(d[..], old(d[..]), X, blend, sample, r, m, Y)
  {
    ghost var bg := d[..];
    if r.x0 > r.x1 || r.y0 > r.y1 {
      forall k | 0 <= k < d.Length
        ensures SlotPasted(d[..], bg, X, blend, sample, r, m, Y, k)
      {
        GridCell(k, X, Y);
      }
      return;
    }
    forall k | 0 <= k < d.Length
      ensures SlotPasted(d[..], bg, X, blend, sample, r, m, r.y0, k)
    {
    }
    var u0, v0 := m.u0, m.v0;
    var y := r.y0;
    while y <= r.y1
      invariant r.y0 <= y <= r.y1 + 1
      invariant u0 == PasteU(m, r, r.x0, y) && v0 == PasteV(m, r, r.x0, y)
      invariant RowsPasted(d[..], bg, X, blend, sample, r, m, y)
    {
      RowBounds(y, X, Y);
      var base := y * X;
      ghost var prev := d[..];
      PasteRow(d, base + r.x0, r.x1 - r.x0 + 1, blend, sample, u0, v0, m.dudx, m.dvdx);
      PasteRowStep(d[..], prev, bg, X, Y, blend, sample, r, m, y, base);
      PasteSteps(m, r, r.x0, y);
      u0, v0 := u0 + m.dudy, v0 + m.dvdy;
      y := y + 1;
    }
    forall k | 0 <= k < d.Length
      ensures SlotPasted(d[..], bg, X, blend, sample, r, m, Y, k)
    {
      assert SlotPasted(d[..], bg, X, blend, sample, r, m, y, k);
      GridCell(k, X, Y);
    }
  }

  /** Paste: dest becomes a copy of the background (unless it is the background), then, unless
      the pasted parallelogram is smaller than a pixel, each pixel of the clipped bounding
      rectangle whose (u, v) falls inside the pasted texture is blended with the texture sampled
      there, clamped, and bilinear when bit 0 of mode is set. The pasted texture is only read,
      so it is sampled as one value taken before the copy; it may not be dest. */
  method Paste(dest: Texture, bgTex: Texture, inTex: Texture, raw: Rect, tiny: bool, m: PasteMap,
               op: CombineOp, mode: int)
    requires dest.Valid() && bgTex.Valid() && dest.SameSize(bgTex)
    requires Sampleable(inTex.View()) && inTex.Data != dest.Data
    modifies dest, dest.Data
    ensures dest.Valid() && dest.XRes == old(bgTex.XRes) && dest.YRes == old(bgTex.YRes)
    ensures dest.NPixels == old(bgTex.Data.Length)
    ensures forall k :: 0 <= k < dest.NPixels ==>
      dest.Data[k] == if tiny then old(bgTex.Data[k])
                      else PastePixel(Blender(op), old(bgTex.Data[k]), Sampler(old(inTex.View()), PasteMode(mode)),
                                      ClipRect(raw, dest.XRes, dest.YRes), m, k % dest.XRes, k / dest.XRes)
  {
    var img := inTex.View();
    ghost var bg := bgTex.Data[..];
    if dest != bgTex {
      dest.Assign(bgTex);
    }
    assert dest.Data[..] == bg;
    var X, Y := dest.XRes, dest.YRes;
    if tiny || X == 0 {
      forall k | 0 <= k < dest.NPixels
        ensures dest.Data[k] == bg[k]
      {
        assert dest.Data[..][k] == bg[k];
      }
      return;
    }
    var r := ClipRect(raw, X, Y);
    var blend, sample := Blender(op), Sampler(img, PasteMode(mode));
    PasteRegion(dest.Data, X, Y, blend, sample, r, m);
    forall k | 0 <= k < dest.NPixels
      ensures dest.Data[k] == PastePixel(blend, bg[k], sample, r, m, k % X, k / X)
    {
      assert SlotPasted(dest.Data[..], bg, X, blend, sample, r, m, Y, k);
      GridCell(k, X, Y);
    }
  }

  // ---------------------------------------------------------------------
  // LinearCombine (combiners.cpp:301-374)

  /** One input of LinearCombine with its weight and shifts already in fixed point, as the
      conversion loop leaves them: W = Weight * 65536, UOfs = UShift * 2^24, VOfs = VShift * 2^24. */
  datatype LinearInput = LinearInput(Tex: Image, W: int, UOfs: int, VOfs: int, FilterMode: int)

  /** 127.0 in 16.16 fixed point, the asserted bound on every weight. */
  const MaxWeight: int := 127 * 0x10000

  /** 127.0 in 8.24 fixed point, the asserted bound on every shift. */
  const MaxShift: int := 127 * TWO24

  /** The largest magnitude of one weighted channel, MulShift16(127.0, 65535). */
  const MaxTerm: int := 127 * 65535

  ghost predicate InputOk(inp: LinearInput) {
    Sampleable(inp.Tex) && -MaxWeight <= inp.W <= MaxWeight &&
    -MaxShift <= inp.UOfs <= MaxShift && -MaxShift <= inp.VOfs <= MaxShift
  }

  ghost predicate InputsOk(inputs: seq<LinearInput>) {
    forall j :: 0 <= j < |inputs| ==> InputOk(inputs[j])
  }

  predicate WeightsOk(inputs: seq<LinearInput>) {
    forall j :: 0 <= j < |inputs| ==> -MaxWeight <= inputs[j].W <= MaxWeight
  }

  /** `in.Tex->SampleFiltered(inPix, u + uo[j], v + vo[j], in.FilterMode)`: one input sampled
      at its own shift from (u, v). */
  function InputSample(inp: LinearInput, u: int, v: int): Pixel
    requires InputOk(inp)
  {
    inp.Tex.SampleFiltered(u + inp.UOfs, v + inp.VOfs, inp.FilterMode)
  }

  /** Input j sampled, as the loops see it. */
  function InputSampler(inputs: seq<LinearInput>): (int, int, int) -> Pixel
    requires InputsOk(inputs)
  {
    (j, u, v) => if 0 <= j < |inputs| then assert InputOk(inputs[j]); InputSample(inputs[j], u, v) else Black
  }

  /** The four int accumulators. */
  datatype Acc = Acc(r: int, g: int, b: int, a: int)

  function AddAcc(x: Acc, y: Acc): Acc {
    Acc(x.r + y.r, x.g + y.g, x.b + y.b, x.a + y.a)
  }

  /** Every channel of s lies in [-b, b]. */
  predicate Bounded(s: Acc, b: int) {
    -b <= s.r <= b && -b <= s.g <= b && -b <= s.b <= b && -b <= s.a <= b
  }

  /** `MulShift16(w, c)` on each channel of a pixel. */
  function Weighted(w: int, p: Pixel): (s: Acc)
    requires -MaxWeight <= w <= MaxWeight
    ensures Bounded(s, MaxTerm)
  {
    MulShift16Bounded(w, p.r);
    MulShift16Bounded(w, p.g);
    MulShift16Bounded(w, p.b);
    MulShift16Bounded(w, p.a);
    Acc(MulShift16(w, p.r), MulShift16(w, p.g), MulShift16(w, p.b), MulShift16(w, p.a))
  }

  lemma MulStep(n: int, m: int)
    ensures (n - 1) * m + m == n * m
  {
  }

  /** The sum of the first n inputs, sampled at (u, v) and weighted; every channel stays within
      n times the largest single term. */
  function InputSum(inputs: seq<LinearInput>, sample: (int, int, int) -> Pixel, n: nat, u: int, v: int): (s: Acc)
    requires n <= |inputs| && WeightsOk(inputs)
    ensures Bounded(s, n * MaxTerm)
  {
    if n == 0 then Acc(0, 0, 0, 0)
    else
      MulStep(n, MaxTerm);
      var s := AddAcc(InputSum(inputs, sample, n - 1, u, v), Weighted(inputs[n - 1].W, sample(n - 1, u, v)));
      assert Bounded(s, (n - 1) * MaxTerm + MaxTerm);
      s
  }

  /** The preweighted constant colour `MulShift16(t, color.c)`, t = constWeight * 65536. */
  function ConstTerm(t: int, color: Pixel): Acc
    requires -MaxWeight <= t <= MaxWeight
  {
    Weighted(t, color)
  }

  /** `clamp(acc, 0, 65535)` on each accumulator. */
  function ClampAcc(s: Acc): Pixel {
    Pixel(Clamp(s.r, 0, 65535), Clamp(s.g, 0, 65535), Clamp(s.b, 0, 65535), Clamp(s.a, 0, 65535))
  }

  /** The clamped sum of the accumulators' start c and every weighted input sample at (u, v). */
  function SumAt(c: Acc, inputs: seq<LinearInput>, sample: (int, int, int) -> Pixel, u: int, v: int): Pixel
    requires WeightsOk(inputs)
  {
    ClampAcc(AddAcc(c, InputSum(inputs, sample, |inputs|, u, v)))
  }

  /** The clamped sum of the constant term and every weighted input sample at (u, v). */
  function LinearSum(color: Pixel, t: int, inputs: seq<LinearInput>, sample: (int, int, int) -> Pixel,
                     u: int, v: int): Pixel
    requires -MaxWeight <= t <= MaxWeight && WeightsOk(inputs)
  {
    SumAt(ConstTerm(t, color), inputs, sample, u, v)
  }

  /** The pixel LinearCombine writes at (u, v): the constant term plus every input sampled at
      its own offset from (u, v) and weighted, clamped to [0, 65535] per channel. */
  function LinearPixel(color: Pixel, t: int, inputs: seq<LinearInput>, u: int, v: int): Pixel
    requires -MaxWeight <= t <= MaxWeight && InputsOk(inputs)
  {
    LinearSum(color, t, inputs, InputSampler(inputs), u, v)
  }

  /** With at most 255 inputs the int accumulators never overflow: after the constant and any
      number of inputs each channel stays within 256 * 127 * 65535 < 2^31. */
  lemma AccumulatorFits(color: Pixel, t: int, inputs: seq<LinearInput>, sample: (int, int, int) -> Pixel,
                        n: nat, u: int, v: int)
    requires -MaxWeight <= t <= MaxWeight && WeightsOk(inputs) && |inputs| <= 255 && n <= |inputs|
    ensures var s := AddAcc(ConstTerm(t, color), InputSum(inputs, sample, n, u, v));
      -TWO31 <= s.r < TWO31 && -TWO31 <= s.g < TWO31 && -TWO31 <= s.b < TWO31 && -TWO31 <= s.a < TWO31
  {
    var s := InputSum(inputs, sample, n, u, v);
    MulMonotone(MaxTerm, n, 255);
    assert n * MaxTerm <= 255 * MaxTerm;
  }

  /** No inputs and a constant weight of 1.0 write the colour itself. */
  lemma LinearConstant(color: Pixel, u: int, v: int)
    ensures LinearPixel(color, 0x10000, [], u, v) == color
  {
    MulShift16Unit(color.r);
    MulShift16Unit(color.g);
    MulShift16Unit(color.b);
    MulShift16Unit(color.a);
  }

  /** Weight 1.0 keeps a pixel: `MulShift16(0x10000, c) == c` on every channel. */
  lemma WeightedUnit(p: Pixel)
    ensures Weighted(0x10000, p) == Acc(p.r, p.g, p.b, p.a)
    ensures Weighted(0, p) == Acc(0, 0, 0, 0)
  {
    MulShift16Unit(p.r);
    MulShift16Unit(p.g);
    MulShift16Unit(p.b);
    MulShift16Unit(p.a);
  }

  /** Whatever the sampler, one input of weight 1.0 and no constant sums to that input's sample. */
  lemma SumSingle(inp: LinearInput, sample: (int, int, int) -> Pixel, u: int, v: int)
    requires inp.W == 0x10000
    ensures SumAt(Acc(0, 0, 0, 0), [inp], sample, u, v) == sample(0, u, v)
  {
    var p := sample(0, u, v);
    WeightedUnit(p);
    assert InputSum([inp], sample, 1, u, v) == AddAcc(Acc(0, 0, 0, 0), Weighted(0x10000, p));
  }

  /** A single input of weight 1.0, and no constant, writes that input's sample at its own
      shifted coordinates. */
  lemma LinearSingle(color: Pixel, inp: LinearInput, u: int, v: int)
    requires InputOk(inp) && inp.W == 0x10000
    ensures LinearPixel(color, 0, [inp], u, v) == InputSample(inp, u, v)
  {
    var sample := InputSampler([inp]);
    WeightedUnit(color);
    assert LinearPixel(color, 0, [inp], u, v) == SumAt(Acc(0, 0, 0, 0), [inp], sample, u, v);
    SumSingle(inp, sample, u, v);
    assert [inp][0] == inp;
  }

  /** So LinearCombine of that single input onto a texture of its size copies it: pixel (x, y)
      is sampled at the centre of texel (x, y). */
  lemma LinearCopies(color: Pixel, inp: LinearInput, x: int, y: int)
    requires InputOk(inp) && inp.W == 0x10000 && inp.UOfs == 0 && inp.VOfs == 0
    requires 0 <= x < inp.Tex.XRes && 0 <= y < inp.Tex.YRes
    ensures LinearPixel(color, 0, [inp], PixelCentre(x, inp.Tex.MinX), PixelCentre(y, inp.Tex.MinY)) ==
            inp.Tex.Data[inp.Tex.Index(x, y)]
  {
    var u, v := (2 * x + 1) * inp.Tex.MinX, (2 * y + 1) * inp.Tex.MinY;
    LinearSingle(color, inp, u, v);
    SampleAtCentre(inp.Tex, x, y, u + inp.UOfs, v + inp.VOfs, inp.FilterMode);
  }

  /** Sampling at (2x + 1) times the half texel, the centre of texel (x, y), returns that texel. */
  lemma SampleAtCentre(img: Image, x: int, y: int, u: int, v: int, mode: int)
    requires Sampleable(img) && 0 <= x < img.XRes && 0 <= y < img.YRes
    requires u == (2 * x + 1) * img.MinX && v == (2 * y + 1) * img.MinY
    ensures img.SampleFiltered(u, v, mode) == img.Data[img.Index(x, y)]
  {
    MinIsHalfTexel(img.ShiftX);
    MinIsHalfTexel(img.ShiftY);
    assert u == Centre(x, img.ShiftX) && v == Centre(y, img.ShiftY);
    img.SampleFilteredAtCentre(x, y, mode);
  }

  /** The innermost loop: the accumulators, started at c, collect every weighted input sample. */
  method CombineInputs(inputs: seq<LinearInput>, sample: (int, int, int) -> Pixel, c: Acc, u: int, v: int)
    returns (acc: Acc)
    requires WeightsOk(inputs)
    ensures acc == AddAcc(c, InputSum(inputs, sample, |inputs|, u, v))
  {
    acc := c;
    var j := 0;
    while j < |inputs|
      invariant 0 <= j <= |inputs|
      invariant acc == AddAcc(c, InputSum(inputs, sample, j, u, v))
    {
      var inPix := sample(j, u, v);
      acc := AddAcc(acc, Weighted(inputs[j].W, inPix));
      j := j + 1;
    }
  }

  /** One pixel: the accumulators after every input, clamped. */
  method CombinePixel(inputs: seq<LinearInput>, sample: (int, int, int) -> Pixel, c: Acc, u: int, v: int)
    returns (p: Pixel)
    requires WeightsOk(inputs)
    ensures p == SumAt(c, inputs, sample, u, v)
  {
    var acc := CombineInputs(inputs, sample, c, u, v);
    p := ClampAcc(acc);
  }

  /** The centre of the next pixel is one texel, twice the half texel m, further on. */
  lemma NextCentre(i: int, m: int)
    ensures PixelCentre(i + 1, m) == PixelCentre(i, m) + 2 * m
  {
  }

  /** The x loop of one row: u starts at mx, the centre of the first pixel, and advances by
      stepU = 2 * mx; v stays at the row's centre. rowPixel(u) is the pixel at (u, v). */
  method LinearRow(d: array<Pixel>, k0: int, X: int, inputs: seq<LinearInput>,
                   sample: (int, int, int) -> Pixel, c: Acc, mx: int, stepU: int, v: int, rowPixel: int -> Pixel)
    requires WeightsOk(inputs) && forall u {:trigger SumAt(c, inputs, sample, u, v)} :: rowPixel(u) == SumAt(c, inputs, sample, u, v)
    requires 0 <= k0 && 0 <= X && k0 + X <= d.Length && stepU == 2 * mx
    modifies d
    ensures forall j :: k0 <= j < k0 + X ==> d[j] == rowPixel(PixelCentre(j - k0, mx))
    ensures forall j :: 0 <= j < k0 ==> d[j] == old(d[j])
  {
    var u := mx;
    var x := 0;
    while x < X
      invariant 0 <= x <= X && u == PixelCentre(x, mx)
      invariant forall j :: k0 <= j < k0 + x ==> d[j] == rowPixel(PixelCentre(j - k0, mx))
      invariant forall j :: 0 <= j < k0 ==> d[j] == old(d[j])
    {
      d[k0 + x] := CombinePixel(inputs, sample, c, u, v);
      assert d[k0 + x] == rowPixel(PixelCentre((k0 + x) - k0, mx));
      NextCentre(x, mx);
      u := u + stepU;
      x := x + 1;
    }
  }

  /** The y loop: v0 starts at my, the centre of the first row, and advances by stepV = 2 * my. */
  method LinearFill(d: array<Pixel>, X: int, Y: int, inputs: seq<LinearInput>,
                    sample: (int, int, int) -> Pixel, c: Acc, mx: int, my: int, stepU: int, stepV: int)
    requires WeightsOk(inputs)
    requires 0 <= X && 0 <= Y && d.Length == X * Y && stepU == 2 * mx && stepV == 2 * my
    modifies d
    ensures forall j :: 0 <= j < d.Length ==>
      d[j] == SumAt(c, inputs, sample, PixelCentre(j % X, mx), PixelCentre(j / X, my))
  {
    var v0 := my;
    var k := 0;
    var y := 0;
    while y < Y
      invariant 0 <= y <= Y && k == y * X && v0 == PixelCentre(y, my)
      invariant forall j :: 0 <= j < k ==>
        d[j] == SumAt(c, inputs, sample, PixelCentre(j % X, mx), PixelCentre(j / X, my))
    {
      MulMonotone(X, y + 1, Y);
      assert k + X == (y + 1) * X;
      label L:
      LinearRow(d, k, X, inputs, sample, c, mx, stepU, v0, u => SumAt(c, inputs, sample, u, v0));
      if X > 0 {
        RowSlots(k, X, y);
      }
      forall j | 0 <= j < k
        ensures d[j] == SumAt(c, inputs, sample, PixelCentre(j % X, mx), PixelCentre(j / X, my))
      {
        assert d[j] == old@L(d[j]);
      }
      forall j | k <= j < k + X
        ensures d[j] == SumAt(c, inputs, sample, PixelCentre(j % X, mx), PixelCentre(j / X, my))
      {
        assert j % X == j - k && j / X == y;
      }
      NextCentre(y, my);
      v0 := v0 + stepV;
      k := k + X;
      y := y + 1;
    }
    assert k == d.Length;
  }

  /** The coordinate of the centre of pixel i along an axis whose half texel is m. */
  function PixelCentre(i: int, m: int): int {
    (2 * i + 1) * m
  }

  /** With the half texel MinX of a 2^shift axis, this is the texel centre Textures.Centre. */
  lemma PixelCentreIsCentre(i: int, shift: nat)
    requires shift <= 23
    ensures PixelCentre(i, Pow2(23 - shift)) == Centre(i, shift)
  {
  }

  /** LinearCombine: every pixel of dest becomes the clamped sum of the constant colour weighted
      by t and of every input, weighted and sampled at that pixel's centre plus the input's own
      offset. The inputs are only read, so they are taken as values; none of them may be dest. */
  method LinearCombine(dest: Texture, color: Pixel, t: int, inputs: seq<LinearInput>)
    requires dest.Valid() && |inputs| <= 255 && -MaxWeight <= t <= MaxWeight && InputsOk(inputs)
    modifies dest.Data
    ensures forall k :: 0 <= k < dest.NPixels ==>
      dest.Data[k] == LinearPixel(color, t, inputs, PixelCentre(k % dest.XRes, dest.MinX),
                                  PixelCentre(k / dest.XRes, dest.MinY))
  {
    var stepU := TexelStep(dest.XRes, dest.ShiftX, dest.MinX);
    var stepV := TexelStep(dest.YRes, dest.ShiftY, dest.MinY);
    assert WeightsOk(inputs) by {
      forall j | 0 <= j < |inputs| ensures -MaxWeight <= inputs[j].W <= MaxWeight {
        assert InputOk(inputs[j]);
      }
    }
    var c := ConstTerm(t, color);
    var X, mx, my := dest.XRes, dest.MinX, dest.MinY;
    var sample := InputSampler(inputs);
    LinearFill(dest.Data, X, dest.YRes, inputs, sample, c, mx, my, stepU, stepV);
    assert X == dest.XRes && mx == dest.MinX && my == dest.MinY;
    forall k | 0 <= k < dest.NPixels
      ensures dest.Data[k] == LinearPixel(color, t, inputs, PixelCentre(k % X, mx), PixelCentre(k / X, my))
    {
      var u, v := PixelCentre(k % X, mx), PixelCentre(k / X, my);
      assert dest.Data[k] == SumAt(c, inputs, sample, u, v);
      LinearPixelIsSum(color, t, inputs, c, sample, u, v);
    }
  }

  lemma LinearPixelIsSum(color: Pixel, t: int, inputs: seq<LinearInput>, c: Acc, sample: (int, int, int) -> Pixel,
                         u: int, v: int)
    requires -MaxWeight <= t <= MaxWeight && InputsOk(inputs) && WeightsOk(inputs)
    requires c == ConstTerm(t, color) && sample == InputSampler(inputs)
    ensures LinearPixel(color, t, inputs, u, v) == SumAt(c, inputs, sample, u, v)
  {
  }
}
